/**
 The use counters of the id ranges (include/resenv.h, common/reseditor.cpp) and
 the count they stand for: the ids in use that lie in the range.
*/
module IdCounters {

  import opened Common
  import opened IdRange

  /** Ids are 32 bits wide and types leave the sign bit clear. */
  predicate IsId(id: int) { 0 <= id < 0x8000_0000 }

  // ------------------------------------------------------- counting up and down

  /** The counter after ++, in 16 bits. */
  function Up(used: nat): (r: nat)
    requires used <= UNSET
    ensures r <= UNSET
  {
    if used == UNSET then 1 else used + 1
  }

  /** The counter after --, in 16 bits. */
  function Down(used: nat): (r: nat)
    requires used <= UNSET
    ensures r <= UNSET
  {
    if used == 0 then UNSET - 1 else used - 1
  }

  /** Down takes back up; the unset value counts as 0, and 0 goes down to 65534. */
  lemma CountersTurn(used: nat)
    requires used <= 0xFFFF
    ensures Up(0xFFFF) == 1 && Down(0) == 0xFFFE
    ensures used < 0xFFFF ==> Down(Up(used)) == used && (Up(used) > used || used == 0xFFFF)
    ensures 0 < used < 0xFFFF ==> Up(Down(used)) == used && Up(used) - Down(used) == 2
  {
  }

  /** getIDRangeById: the first range that holds the id, or their number. */
  function RangeOf(rs: seq<Range>, low: int, i: nat := 0): (r: nat)
    requires i <= |rs|
    ensures i <= r <= |rs| && (r < |rs| ==> rs[r].Contains(low))
    ensures forall k :: i <= k < r ==> !rs[k].Contains(low)
    decreases |rs| - i
  {
    if i == |rs| || rs[i].Contains(low) then i else RangeOf(rs, low, i + 1)
  }

  function WithUsed(rs: seq<Range>, i: nat, used: nat): seq<Range>
    requires i < |rs|
  {
    rs[i := rs[i].(used := used)]
  }

  /** Two lists that differ in the counters only. */
  predicate OnlyCounts(rs: seq<Range>, rs': seq<Range>) {
    |rs| == |rs'| && forall k :: 0 <= k < |rs| ==> rs'[k] == rs[k].(used := rs'[k].used)
  }

  function Use(rs: seq<Range>, t: nat, id: int): (r: seq<Range>)
    requires Sorted(rs)
    ensures Sorted(r) && OnlyCounts(rs, r)
  {
    var i := RangeOf(rs, Low(id));
    if TypeOf(id) != t || i == |rs| then rs else WithUsed(rs, i, Up(rs[i].used))
  }

  function Unuse(rs: seq<Range>, t: nat, id: int): (r: seq<Range>)
    requires Sorted(rs)
    ensures Sorted(r) && OnlyCounts(rs, r)
  {
    var i := RangeOf(rs, Low(id));
    if TypeOf(id) != t || i == |rs| then rs else WithUsed(rs, i, Down(rs[i].used))
  }

  // ------------------------------------------------------------- the recount

  /** The keys that updateIDRangeManager walks over for a range. */
  function Window(ids: set<int>, t: nat, r: Range): set<int> {
    set id | id in ids && FullId(t, r.min + 1) <= id <= FullId(t, r.max)
  }

  function Recount(ids: set<int>, t: nat, r: Range): nat { |Window(ids, t, r)| }

  /** The counter says how many ids are in use, or that there are none and nothing was counted yet. */
  predicate Agrees(used: nat, n: nat) {
    used == n || (used == UNSET && n == 0)
  }

  ghost predicate AllAgree(rs: seq<Range>, t: nat, ids: set<int>) {
    forall k :: 0 <= k < |rs| ==> Agrees(rs[k].used, Recount(ids, t, rs[k]))
  }

  predicate AreIds(ids: set<int>) { forall id :: id in ids ==> IsId(id) }

  lemma {:induction false} BoundedCount(s: set<int>, lo: int, hi: int)
    requires lo <= hi + 1 && forall x :: x in s ==> lo <= x <= hi
    ensures |s| <= hi - lo + 1
    decreases hi + 1 - lo
  {
    if lo == hi + 1 {
      assert s == {};
    } else {
      BoundedCount(s - {lo}, lo + 1, hi);
    }
  }

  /** An id in use lies in the window of a range exactly when the range holds it. */
  lemma InWindow(ids: set<int>, t: nat, r: Range, id: int)
    requires GoodRange(r) && IsId(id) && t < 0x8000
    ensures id in Window(ids, t, r) <==> id in ids && TypeOf(id) == t && r.Contains(Low(id))
  {
    assert id % 0x1_0000_0000 == id;
    assert id == TypeOf(id) * TYPE_UNIT + Low(id);
    assert 0 <= Low(id) < TYPE_UNIT;
    if TypeOf(id) < t {
      assert TypeOf(id) * TYPE_UNIT <= (t - 1) * TYPE_UNIT;
    } else if TypeOf(id) > t {
      assert (t + 1) * TYPE_UNIT <= TypeOf(id) * TYPE_UNIT;
    }
  }

  lemma AtMostOneRange(rs: seq<Range>, low: int, k: nat)
    requires Sorted(rs) && k < |rs|
    ensures rs[k].Contains(low) <==> k == RangeOf(rs, low)
  {
  }

  /** Taking a new id into use adds one to the recount of its range. */
  lemma RecountAdds(ids: set<int>, t: nat, r: Range, id: int)
    requires GoodRange(r) && IsId(id) && t < 0x8000 && id !in ids
    ensures Recount(ids + {id}, t, r) == Recount(ids, t, r) + if TypeOf(id) == t && r.Contains(Low(id)) then 1 else 0
    ensures Recount(ids + {id}, t, r) <= UNSET
  {
    InWindow(ids + {id}, t, r, id);
    if TypeOf(id) == t && r.Contains(Low(id)) {
      assert Window(ids + {id}, t, r) == Window(ids, t, r) + {id};
    } else {
      assert Window(ids + {id}, t, r) == Window(ids, t, r);
    }
    BoundedCount(Window(ids + {id}, t, r), FullId(t, r.min + 1), FullId(t, r.max));
  }

  /** useId for an id that was not in use keeps every counter in step with the recount. */
  lemma UseAgrees(rs: seq<Range>, t: nat, ids: set<int>, id: int)
    requires Sorted(rs) && AllAgree(rs, t, ids) && IsId(id) && t < 0x8000 && id !in ids
    ensures AllAgree(Use(rs, t, id), t, ids + {id})
  {
    var next := Use(rs, t, id);
    forall k | 0 <= k < |next| ensures Agrees(next[k].used, Recount(ids + {id}, t, next[k])) {
      assert Window(ids + {id}, t, next[k]) == Window(ids + {id}, t, rs[k]);
      RecountAdds(ids, t, rs[k], id);
      AtMostOneRange(rs, Low(id), k);
    }
  }

  /** unuseId for an id that was in use keeps every counter in step with the recount. */
  lemma UnuseAgrees(rs: seq<Range>, t: nat, ids: set<int>, id: int)
    requires Sorted(rs) && AllAgree(rs, t, ids) && IsId(id) && t < 0x8000 && id in ids
    ensures AllAgree(Unuse(rs, t, id), t, ids - {id})
  {
    var next := Unuse(rs, t, id);
    assert ids - {id} + {id} == ids;
    forall k | 0 <= k < |next| ensures Agrees(next[k].used, Recount(ids - {id}, t, next[k])) {
      assert Window(ids - {id}, t, next[k]) == Window(ids - {id}, t, rs[k]);
      RecountAdds(ids - {id}, t, rs[k], id);
      AtMostOneRange(rs, Low(id), k);
    }
  }

  /** Where the counters change: in the range of the id, if the manager has one for it. */
  function Counted(rs: seq<Range>, t: nat, id: int): nat {
    if TypeOf(id) == t then RangeOf(rs, Low(id)) else |rs|
  }

  /** useId for an id that is in use already puts the counters out of step exactly when a range holds the id. */
  lemma UseTwiceDrifts(rs: seq<Range>, t: nat, ids: set<int>, id: int)
    requires Sorted(rs) && AllAgree(rs, t, ids) && IsId(id) && t < 0x8000 && id in ids
    ensures AllAgree(Use(rs, t, id), t, ids) <==> Counted(rs, t, id) == |rs|
  {
    var next := Use(rs, t, id);
    var k := Counted(rs, t, id);
    if k < |rs| {
      assert Window(ids, t, next[k]) == Window(ids, t, rs[k]);
      RecountAdds(ids - {id}, t, rs[k], id);
      assert ids - {id} + {id} == ids;
      assert !Agrees(next[k].used, Recount(ids, t, next[k]));
    }
  }

  /**
   Renumbering an id that is not in use counts all the same: the counters stay
   in step exactly when the old and the new id belong to the same range or to none.
  */
  lemma MoveAbsentDrifts(rs: seq<Range>, t: nat, ids: set<int>, oldId: int, newId: int)
    requires Sorted(rs) && AllAgree(rs, t, ids) && t < 0x8000
    requires IsId(oldId) && IsId(newId) && oldId !in ids && newId !in ids
    ensures AllAgree(Unuse(Use(rs, t, newId), t, oldId), t, ids) <==> Counted(rs, t, newId) == Counted(rs, t, oldId)
  {
    hide Use, Unuse, RangeOf;
    var next := Unuse(Use(rs, t, newId), t, oldId);
    var i, j := Counted(rs, t, newId), Counted(rs, t, oldId);
    forall k | 0 <= k < |rs|
      ensures Agrees(next[k].used, Recount(ids, t, next[k])) <==> !((k == i || k == j) && i != j)
    {
      assert Window(ids, t, next[k]) == Window(ids, t, rs[k]);
      RecountAdds(ids, t, rs[k], newId);
      RecountAdds(ids, t, rs[k], oldId);
      MoveAt(rs, t, oldId, newId, k);
    }
    if i != j {
      var k := if i < |rs| then i else j;
      assert !Agrees(next[k].used, Recount(ids, t, next[k]));
    }
  }

  /** What counting one id up and another one down does to the counter of one range. */
  lemma MoveAt(rs: seq<Range>, t: nat, oldId: int, newId: int, k: nat)
    requires Sorted(rs) && k < |rs|
    ensures var next := Unuse(Use(rs, t, newId), t, oldId);
      var up := TypeOf(newId) == t && rs[k].Contains(Low(newId));
      var down := TypeOf(oldId) == t && rs[k].Contains(Low(oldId));
      next[k].used == (var u := if up then Up(rs[k].used) else rs[k].used; if down then Down(u) else u)
    ensures TypeOf(newId) == t && rs[k].Contains(Low(newId)) <==> k == Counted(rs, t, newId)
    ensures TypeOf(oldId) == t && rs[k].Contains(Low(oldId)) <==> k == Counted(rs, t, oldId)
  {
    var used := Use(rs, t, newId);
    SameRanges(rs, used, Low(oldId));
    AtMostOneRange(rs, Low(newId), k);
    AtMostOneRange(rs, Low(oldId), k);
  }

  lemma {:induction false} SameRanges(rs: seq<Range>, rs': seq<Range>, low: int, i: nat := 0)
    requires |rs| == |rs'| && i <= |rs|
    requires forall k :: 0 <= k < |rs| ==> rs[k].min == rs'[k].min && rs[k].max == rs'[k].max
    ensures RangeOf(rs, low, i) == RangeOf(rs', low, i)
    decreases |rs| - i
  {
    if i == |rs| {
    } else {
      SameRanges(rs, rs', low, i + 1);
    }
  }
}
