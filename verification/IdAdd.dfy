/**
 Adding a range anywhere in the list of a manager (common/reseditor.cpp): the
 walk for its place, the joins with the ranges beside it, and when the outcome
 is what was asked for.
*/
module IdAdd {

  import opened IdRange
  import opened IdReload
  import opened Wrappers

  /** The first range from i on that begins where the new one ends or later. */
  function Landing(rs: seq<Range>, max: nat, i: nat := 0): (r: nat)
    requires i <= |rs|
    ensures i <= r <= |rs| && (r < |rs| ==> max <= rs[r].min)
    ensures forall k :: i <= k < r ==> rs[k].min < max
    decreases |rs| - i
  {
    if i == |rs| || max <= rs[i].min then i else Landing(rs, max, i + 1)
  }

  function Insert(rs: seq<Range>, i: nat, r: Range): seq<Range>
    requires i <= |rs|
  {
    rs[..i] + [r] + rs[i..]
  }

  /** The new range ends where the range at i begins, and both have one owner. */
  predicate Joins(rs: seq<Range>, i: nat, max: nat, owner: Owner) {
    i < |rs| && rs[i].min == max && rs[i].owner == owner
  }

  /**
   In front of the range at i and behind the one before; joining both reads
   behind the last range if there is none.
  */
  function AddBetween(rs: seq<Range>, i: nat, min: nat, max: nat, owner: Owner): Option<seq<Range>>
    requires 0 < i < |rs|
  {
    var prev := rs[i - 1];
    if owner == prev.owner && Joins(rs, i, max, owner) then
      if i + 1 == |rs| then None
      else
        var r := Extend(rs, i - 1, prev.min, rs[i].max);
        Some(r[..i] + r[i + 1..])
    else if owner == prev.owner then Some(Insert(rs, i, NewRange(min, max, owner)))
    else if Joins(rs, i, max, owner) then Some(Extend(rs, i, min, rs[i].max))
    else if prev.max < min then Some(Insert(rs, i, NewRange(min, max, owner)))
    else if max <= prev.max + 1 then Some(rs)
    else Some(Insert(rs, i, NewRange(prev.max + 1, max, owner)))
  }

  /** addIDRange from its i-th step on; None where it reads behind the last range. */
  function AddFrom(rs: seq<Range>, i: nat, min: nat, max: nat, owner: Owner): Option<seq<Range>>
    requires i <= |rs|
    decreases |rs| - i
  {
    if i == |rs| then Some(AddLast(rs, min, max, owner))
    else if max <= rs[i].min && i <= 1 then
      Some(if Joins(rs, i, max, owner) then Extend(rs, i, min, rs[i].max) else Insert(rs, 0, NewRange(min, max, owner)))
    else if max <= rs[i].min && rs[i - 1].max <= min then AddBetween(rs, i, min, max, owner)
    else AddFrom(rs, i + 1, min, max, owner)
  }

  function Add(rs: seq<Range>, min: nat, max: nat, owner: Owner): Option<seq<Range>> {
    if max <= min then Some(rs) else AddFrom(rs, 0, min, max, owner)
  }

  lemma {:induction false} ToLanding(rs: seq<Range>, i: nat, min: nat, max: nat, owner: Owner)
    requires i <= Landing(rs, max)
    ensures AddFrom(rs, i, min, max, owner) == AddFrom(rs, Landing(rs, max), min, max, owner)
    decreases Landing(rs, max) - i
  {
    if i == Landing(rs, max) {
    } else {
      ToLanding(rs, i + 1, min, max, owner);
    }
  }

  /** At the tail, adding is what loading does. */
  lemma AddsLast(rs: seq<Range>, min: nat, max: nat, owner: Owner)
    requires LandsLast(rs, max)
    ensures Add(rs, min, max, owner) == Some(AddLast(rs, min, max, owner))
  {
    ToLanding(rs, 0, min, max, owner);
  }

  // ------------------------------------------------------------------- the order

  /** A range that overlaps the one before its place is looked for in vain up to the end, and nothing changes. */
  lemma {:induction false} WalksOff(rs: seq<Range>, i: nat, min: nat, max: nat, owner: Owner)
    requires Sorted(rs) && min < max && 2 <= i <= |rs| && max <= rs[|rs| - 1].max
    requires forall k :: i - 1 <= k < |rs| ==> min < rs[k].max
    ensures AddFrom(rs, i, min, max, owner) == Some(rs)
    decreases |rs| - i
  {
    if i < |rs| {
      WalksOff(rs, i + 1, min, max, owner);
    } else {
      ExtendLast(rs, rs[|rs| - 1].max);
      assert rs[|rs| - 1 := rs[|rs| - 1]] == rs;
    }
  }

  lemma InsertSorted(rs: seq<Range>, i: nat, r: Range)
    requires Sorted(rs) && i <= |rs| && GoodRange(r)
    ensures Sorted(Insert(rs, i, r)) <==> (i > 0 ==> rs[i - 1].max <= r.min) && (i < |rs| ==> r.max <= rs[i].min)
  {
    var all := Insert(rs, i, r);
    assert all[i] == r && (i > 0 ==> all[i - 1] == rs[i - 1]) && (i < |rs| ==> all[i + 1] == rs[i]);
    if (i > 0 ==> rs[i - 1].max <= r.min) && (i < |rs| ==> r.max <= rs[i].min) {
      forall a | 0 <= a < i ensures rs[a].max <= r.min { assert a < i - 1 ==> rs[a].max <= rs[i - 1].min; }
      forall a | i <= a < |rs| ensures r.max <= rs[a].min { assert i < a ==> rs[i].max <= rs[a].min; }
    }
  }

  lemma RemoveSorted(rs: seq<Range>, i: nat)
    requires Sorted(rs) && i < |rs|
    ensures Sorted(rs[..i] + rs[i + 1..])
  {
  }

  lemma BetweenSorted(rs: seq<Range>, i: nat, min: nat, max: nat, owner: Owner)
    requires Sorted(rs) && 0 < i < |rs| && min < max <= rs[i].min && rs[i - 1].max <= min
    ensures var r := AddBetween(rs, i, min, max, owner); r.Some? ==> Sorted(r.value)
  {
    hide Extend, Insert;
    var prev := rs[i - 1];
    assert GoodRange(rs[i]) && GoodRange(prev);
    ExtendKeepsSorted(rs, i, min, rs[i].max);
    ExtendKeepsSorted(rs, i - 1, prev.min, rs[i].max);
    RemoveSorted(Extend(rs, i - 1, prev.min, rs[i].max), i);
    InsertSorted(rs, i, NewRange(min, max, owner));
    if prev.max + 1 < max { InsertSorted(rs, i, NewRange(prev.max + 1, max, owner)); }
    hide Sorted;
  }

  /**
   The list goes out of order exactly when a new range belongs between the first
   two ranges and does not join the second.
  */
  lemma OrderIsKept(rs: seq<Range>, min: nat, max: nat, owner: Owner)
    requires Sorted(rs) && min < max <= UNSET
    ensures var r := Add(rs, min, max, owner);
      r.Some? ==> (Sorted(r.value) <==> !(Landing(rs, max) == 1 < |rs| && !Joins(rs, 1, max, owner)))
  {
    hide Extend, AddLast;
    var i := Landing(rs, max);
    ToLanding(rs, 0, min, max, owner);
    if i == |rs| {
      AddLastKeeps(rs, min, max, owner);
    } else if i <= 1 {
      ExtendKeepsSorted(rs, i, min, rs[i].max);
      InsertSorted(rs, 0, NewRange(min, max, owner));
    } else if rs[i - 1].max <= min {
      BetweenSorted(rs, i, min, max, owner);
    } else {
      forall k | i - 1 <= k < |rs| ensures min < rs[k].max { assert i <= k ==> rs[i - 1].max <= rs[k].min; }
      WalksOff(rs, i, min, max, owner);
    }
  }

  // --------------------------------------------------------------------- the ids

  /** The new range overlaps none of the list. */
  predicate Apart(rs: seq<Range>, min: nat, max: nat) {
    forall i :: 0 <= i < |rs| ==> rs[i].max <= min || max <= rs[i].min
  }

  /** The list r is in order and has the ids of the other and those of the new range. */
  ghost predicate Right(r: Option<seq<Range>>, rs: seq<Range>, min: nat, max: nat) {
    r.Some? && Sorted(r.value) && forall id :: Holds(r.value, id) <==> Holds(rs, id) || min < id <= max
  }

  /** What the neighbours must be like: i is where the new range lands. */
  predicate Suits(rs: seq<Range>, i: nat, min: nat, max: nat, owner: Owner)
    requires i <= |rs|
  {
    if i == 0 then min > 0 || !Joins(rs, 0, max, owner)
    else if i == 1 < |rs| then Joins(rs, 1, max, owner)
    else if rs[i - 1].owner == owner then !Joins(rs, i, max, owner)
    else rs[i - 1].max < min || Joins(rs, i, max, owner)
  }

  lemma HoldsSplit(a: seq<Range>, b: seq<Range>, id: int)
    ensures Holds(a + b, id) <==> Holds(a, id) || Holds(b, id)
  {
    var all := a + b;
    if Holds(a, id) {
      var i :| 0 <= i < |a| && a[i].Contains(id);
      assert all[i].Contains(id);
    }
    if Holds(b, id) {
      var i :| 0 <= i < |b| && b[i].Contains(id);
      assert all[|a| + i].Contains(id);
    }
  }

  lemma HoldsOne(r: Range, id: int)
    ensures Holds([r], id) <==> r.Contains(id)
  {
    assert [r][0] == r;
  }

  lemma HoldsAt(rs: seq<Range>, i: nat, id: int)
    requires i < |rs|
    ensures Holds(rs, id) <==> Holds(rs[..i], id) || rs[i].Contains(id) || Holds(rs[i + 1..], id)
  {
    assert rs == rs[..i] + ([rs[i]] + rs[i + 1..]);
    HoldsSplit(rs[..i], [rs[i]] + rs[i + 1..], id);
    HoldsSplit([rs[i]], rs[i + 1..], id);
    HoldsOne(rs[i], id);
  }

  lemma HoldsInserted(rs: seq<Range>, i: nat, r: Range, id: int)
    requires i <= |rs|
    ensures Holds(Insert(rs, i, r), id) <==> Holds(rs, id) || r.Contains(id)
  {
    assert rs == rs[..i] + rs[i..];
    HoldsSplit(rs[..i], rs[i..], id);
    HoldsSplit(rs[..i] + [r], rs[i..], id);
    HoldsSplit(rs[..i], [r], id);
    HoldsOne(r, id);
  }

  /** The range at i, begun earlier, takes in the new one. */
  lemma HoldsExtended(rs: seq<Range>, i: nat, min: nat, id: int)
    requires Sorted(rs) && i < |rs| && min < rs[i].min && (i > 0 ==> rs[i - 1].max <= min)
    ensures Holds(Extend(rs, i, min, rs[i].max), id) <==> Holds(rs, id) || (min > 0 && min < id <= rs[i].min)
  {
    var r := Extend(rs, i, min, rs[i].max);
    HoldsAt(rs, i, id);
    HoldsAt(r, i, id);
    assert i + 1 < |rs| ==> rs[i].max <= rs[i + 1].min;
    assert r[..i] == rs[..i] && r[i + 1..] == rs[i + 1..];
  }

  /** Sorted ranges are disjoint. */
  lemma HeldOnce(rs: seq<Range>, i: nat, id: int)
    requires Sorted(rs) && i < |rs| && rs[i].Contains(id)
    ensures !Holds(rs[..i], id) && !Holds(rs[i + 1..], id)
  {
    forall k | 0 <= k < |rs| && k != i ensures !rs[k].Contains(id) {
      if k < i { assert rs[k].max <= rs[i].min; } else { assert rs[i].max <= rs[k].min; }
    }
  }

  lemma NotHeld(rs: seq<Range>, min: nat, max: nat)
    requires Apart(rs, min, max)
    ensures forall id :: min < id <= max ==> !Holds(rs, id)
  {
  }

  /** Joined on both sides, the list loses the range behind. */
  lemma LosesRange(rs: seq<Range>, i: nat, min: nat, max: nat, owner: Owner)
    requires Sorted(rs) && 0 < i < |rs| && min < max <= rs[i].min && Apart(rs, min, max)
    requires owner == rs[i - 1].owner && Joins(rs, i, max, owner)
    ensures !Right(AddBetween(rs, i, min, max, owner), rs, min, max)
  {
    if i + 1 < |rs| {
      assert Extend(rs, i - 1, rs[i - 1].min, rs[i].max) == rs;
      assert AddBetween(rs, i, min, max, owner) == Some(rs[..i] + rs[i + 1..]);
      var id := rs[i].max;
      HeldOnce(rs, i, id);
      HoldsSplit(rs[..i], rs[i + 1..], id);
      assert rs[i].Contains(id) && Holds(rs, id);
    }
  }

  lemma RightBetween(rs: seq<Range>, i: nat, min: nat, max: nat, owner: Owner)
    requires Sorted(rs) && 1 < i < |rs| && min < max <= rs[i].min && rs[i - 1].max <= min && Apart(rs, min, max)
    ensures Right(AddBetween(rs, i, min, max, owner), rs, min, max) <==> Suits(rs, i, min, max, owner)
  {
    var prev := rs[i - 1];
    var r := AddBetween(rs, i, min, max, owner);
    assert prev.max > 0;
    hide Extend, Insert, Sorted;
    BetweenSorted(rs, i, min, max, owner);
    if owner == prev.owner && Joins(rs, i, max, owner) {
      LosesRange(rs, i, min, max, owner);
    } else if Joins(rs, i, max, owner) && owner != prev.owner {
      forall id ensures Holds(r.value, id) <==> Holds(rs, id) || min < id <= max { HoldsExtended(rs, i, min, id); }
    } else if owner == prev.owner || prev.max < min {
      forall id ensures Holds(r.value, id) <==> Holds(rs, id) || min < id <= max {
        HoldsInserted(rs, i, NewRange(min, max, owner), id);
      }
    } else {
      NotHeld(rs, min, max);
      if prev.max + 1 < max { HoldsInserted(rs, i, NewRange(prev.max + 1, max, owner), min + 1); }
      assert !Holds(r.value, min + 1);
    }
  }

  lemma RightFirst(rs: seq<Range>, min: nat, max: nat, owner: Owner)
    requires Sorted(rs) && rs != [] && min < max <= rs[0].min && Apart(rs, min, max)
    ensures Right(AddFrom(rs, 0, min, max, owner), rs, min, max) <==> Suits(rs, 0, min, max, owner)
  {
    var r := AddFrom(rs, 0, min, max, owner).value;
    assert GoodRange(rs[0]);
    hide Extend, Insert, Sorted;
    if Joins(rs, 0, max, owner) {
      ExtendKeepsSorted(rs, 0, min, rs[0].max);
      forall id ensures Holds(r, id) <==>
        Holds(rs, id) || (min > 0 && min < id <= max) { HoldsExtended(rs, 0, min, id); }
      NotHeld(rs, min, max);
      if min == 0 { assert !Holds(r, max); }
    } else {
      InsertSorted(rs, 0, NewRange(min, max, owner));
      forall id ensures Holds(r, id) <==>
        Holds(rs, id) || min < id <= max { HoldsInserted(rs, 0, NewRange(min, max, owner), id); }
    }
  }

  lemma RightLast(rs: seq<Range>, min: nat, max: nat, owner: Owner)
    requires Sorted(rs) && min < max <= UNSET && Apart(rs, min, max) && LandsLast(rs, max)
    ensures Right(Some(AddLast(rs, min, max, owner)), rs, min, max) <==> Suits(rs, |rs|, min, max, owner)
  {
    AddLastKeeps(rs, min, max, owner);
    NotHeld(rs, min, max);
    var r := AddLast(rs, min, max, owner);
    if rs == [] {
      forall id ensures Holds(r, id) <==> Holds(rs, id) || min < id <= max { HoldsOne(r[0], id); }
    } else {
      var prev := rs[|rs| - 1];
      assert prev.max <= min;
      hide Sorted, AddLast, Holds;
      forall id
        ensures Holds(r, id) <==>
          Holds(rs, id) || (min < id <= max && !(min <= prev.max && prev.owner != owner && id == prev.max + 1))
      {
        AddLastHolds(rs, min, max, owner, id);
      }
      if prev.max == min && prev.owner != owner { assert !Holds(r, min + 1); }
    }
  }

  /**
   A range that overlaps no other is added right exactly when its neighbours suit
   it.  As the second range it has to join the one behind; further on it may not
   join on both sides; and it may not touch a range of another owner in front.
  */
  lemma AddIsRight(rs: seq<Range>, min: nat, max: nat, owner: Owner)
    requires Sorted(rs) && min < max <= UNSET && Apart(rs, min, max)
    ensures Right(Add(rs, min, max, owner), rs, min, max) <==> Suits(rs, Landing(rs, max), min, max, owner)
  {
    hide Sorted, AddLast, Extend, Insert, AddBetween, Right;
    var i := Landing(rs, max);
    ToLanding(rs, 0, min, max, owner);
    if i == |rs| {
      RightLast(rs, min, max, owner);
    } else if i == 0 {
      RightFirst(rs, min, max, owner);
    } else if i == 1 {
      RightSecond(rs, min, max, owner);
    } else {
      RightBetween(rs, i, min, max, owner);
    }
  }

  lemma RightSecond(rs: seq<Range>, min: nat, max: nat, owner: Owner)
    requires Sorted(rs) && min < max <= UNSET && Apart(rs, min, max) && Landing(rs, max) == 1 < |rs|
    ensures Right(AddFrom(rs, 1, min, max, owner), rs, min, max) <==> Suits(rs, 1, min, max, owner)
  {
    hide Extend, Insert;
    ToLanding(rs, 0, min, max, owner);
    OrderIsKept(rs, min, max, owner);
    if Joins(rs, 1, max, owner) {
      var r := AddFrom(rs, 1, min, max, owner).value;
      forall id ensures Holds(r, id) <==> Holds(rs, id) || min < id <= max { HoldsExtended(rs, 1, min, id); }
    }
  }
}
