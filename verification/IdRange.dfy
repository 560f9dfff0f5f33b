/**
 Ranges of resource ids and the enumeration of their ids (include/resenv.h,
 common/reseditor.cpp).  A range holds the ids above its minimum up to and
 including its maximum; a full id carries its type above 16 bits.
*/
module IdRange {

  import opened Common
  import opened Wrappers

  /** The counter value that means that nothing was counted yet. */
  const UNSET := 0xFFFF

  type Owner = nat

  datatype Range = Range(min: nat, max: nat, used: nat, owner: Owner, isNew: bool)
  {
    predicate Contains(id: int) { min < id <= max }

    function Capacity(): int { max - min }

    /** As written in the source: the counter minus the capacity, not the other way round. */
    function UnusedCount(): int { used - (max - min) }
  }

  predicate GoodRange(r: Range) {
    r.min < r.max <= 0xFFFF && r.used <= UNSET
  }

  predicate Sorted(rs: seq<Range>) {
    && (forall i :: 0 <= i < |rs| ==> GoodRange(rs[i]))
    && (forall i, j :: 0 <= i < j < |rs| ==> rs[i].max <= rs[j].min)
  }

  // ------------------------------------------------------- one call of nextId

  /** cur_idrange and next_id. */
  datatype Cursor = Cursor(cur: Option<nat>, next: int)

  const START := Cursor(None, -1)

  /** The current range, if there is one, is in the list. */
  predicate Points(rs: seq<Range>, c: Cursor) {
    c.cur.Some? ==> c.cur.value < |rs|
  }

  /** The first range from i on of that owner, or their number. */
  function NextOwned(rs: seq<Range>, i: nat, owner: Owner): (r: nat)
    requires i <= |rs|
    ensures i <= r <= |rs| && (r < |rs| ==> rs[r].owner == owner)
    ensures forall k :: i <= k < r ==> rs[k].owner != owner
    decreases |rs| - i
  {
    if i == |rs| || rs[i].owner == owner then i else NextOwned(rs, i + 1, owner)
  }

  function FirstOver(rs: seq<Range>, i: nat): (r: nat)
    requires i <= |rs|
    ensures i <= r <= |rs| && (r < |rs| ==> 0 < rs[r].UnusedCount())
    ensures forall k :: i <= k < r ==> rs[k].UnusedCount() <= 0
    decreases |rs| - i
  {
    if i == |rs| || 0 < rs[i].UnusedCount() then i else FirstOver(rs, i + 1)
  }

  /** The second half of the wrap search: a range of the owner with room left. */
  function FirstRoom(rs: seq<Range>, i: nat, owner: Owner): (r: nat)
    requires i <= |rs|
    ensures i <= r <= |rs| && (r < |rs| ==> rs[r].owner == owner && rs[r].used < rs[r].Capacity())
    ensures forall k :: i <= k < r ==> rs[k].owner != owner || rs[k].Capacity() <= rs[k].used
    decreases |rs| - i
  {
    if i == |rs| || (rs[i].owner == owner && rs[i].used < rs[i].Capacity()) then i else FirstRoom(rs, i + 1, owner)
  }

  function WrapSearch(rs: seq<Range>, owner: Owner): (r: nat)
    ensures r <= |rs|
  {
    FirstRoom(rs, FirstOver(rs, 0), owner)
  }

  function FullId(t: nat, id: int): int { t * TYPE_UNIT + id }

  /** A full id has the type in its upper half and the id in its lower one. */
  lemma FullIdHalves(t: nat, low: nat)
    requires t < 0x8000 && low < 0x1_0000
    ensures var id := FullId(t, low);
      && id / 0x1_0000 == TypeOf(id) == t && id % 0x1_0000 == Low(id) == low && 0 <= id < 0x8000_0000
  {
  }

  /** The cursor after one call, and the id returned or -1. */
  function NextId(rs: seq<Range>, t: nat, owner: Owner, c: Cursor): (r: (Cursor, int))
    requires Points(rs, c)
    ensures Points(rs, r.0)
  {
    var cur := NextOwned(rs, if c.cur == None then 0 else c.cur.value, owner);
    if cur == |rs| then (Cursor(None, c.next), -1)
    else if c.next <= rs[cur].min then (Cursor(Some(cur), rs[cur].min + 2), FullId(t, rs[cur].min + 1))
    else if c.next <= rs[cur].max then (Cursor(Some(cur), c.next + 1), FullId(t, c.next))
    else
      var to := if cur + 1 < |rs| then cur + 1 else WrapSearch(rs, owner);
      if to == |rs| then (START, -1)
      else (Cursor(Some(to), rs[to].min + 2), FullId(t, rs[to].min + 1))
  }

  // ------------------------------------------------- the ids of a range list

  function IdsFrom(t: nat, from: int, max: int): seq<int> {
    seq(if from <= max then max - from + 1 else 0, k => FullId(t, from + k))
  }

  /** The ids of the ranges from i on, in order. */
  function Ids(rs: seq<Range>, t: nat, i: nat): seq<int>
    requires i <= |rs|
    decreases |rs| - i
  {
    if i == |rs| then [] else IdsFrom(t, rs[i].min + 1, rs[i].max) + Ids(rs, t, i + 1)
  }

  /** What the calls to come return before the next -1. */
  function Rest(rs: seq<Range>, t: nat, c: Cursor): seq<int>
    requires InStep(rs, c)
  {
    if c.cur == None then Ids(rs, t, 0)
    else IdsFrom(t, c.next, rs[c.cur.value].max) + Ids(rs, t, c.cur.value + 1)
  }

  /** A cursor as the calls leave it. */
  predicate InStep(rs: seq<Range>, c: Cursor) {
    if c.cur == None then c.next == -1
    else c.cur.value < |rs| && rs[c.cur.value].min < c.next <= rs[c.cur.value].max + 1
  }

  predicate OneOwner(rs: seq<Range>, owner: Owner) {
    forall i :: 0 <= i < |rs| ==> rs[i].owner == owner
  }

  /** No range that counts more than it holds comes before one with room. */
  predicate StopsAtEnd(rs: seq<Range>) {
    forall i, j :: 0 <= i < j < |rs| && rs[i].Capacity() < rs[i].used ==> rs[j].Capacity() <= rs[j].used
  }

  /**
   The search at the end of the list finds a range exactly when one that counts
   more than it holds comes before one with room.
  */
  lemma WrapSearchFinds(rs: seq<Range>, owner: Owner)
    requires OneOwner(rs, owner)
    ensures WrapSearch(rs, owner) == |rs| <==> StopsAtEnd(rs)
  {
    var i := FirstOver(rs, 0);
    if i < |rs| {
      assert rs[i].Capacity() < rs[i].used;
      var j := FirstRoom(rs, i, owner);
      if j < |rs| { assert i < j; }
    }
  }

  /**
   One call takes the first of the ids still to come.  When none is left it
   returns -1 and starts over exactly when the search at the end finds nothing.
  */
  ghost predicate TakesNext(rs: seq<Range>, t: nat, owner: Owner, c: Cursor)
    requires InStep(rs, c)
  {
    var rest := Rest(rs, t, c);
    var (c', id) := NextId(rs, t, owner, c);
    && InStep(rs, c')
    && (if rest == [] then (id == -1 <==> StopsAtEnd(rs)) && (id == -1 <==> c' == START)
        else id == rest[0] && id != -1 && Rest(rs, t, c') == rest[1..])
  }

  lemma NextIdTakesNext(rs: seq<Range>, t: nat, owner: Owner, c: Cursor)
    requires OneOwner(rs, owner) && InStep(rs, c)
    requires forall i :: 0 <= i < |rs| ==> GoodRange(rs[i])
    ensures TakesNext(rs, t, owner, c)
  {
    hide Rest, Ids, IdsFrom, NextId, StopsAtEnd;
    NextIdMoves(rs, t, owner, c);
    var at := At(rs, c);
    RestAt(rs, t, c);
    if at.0 < |rs| { RestStep(rs, t, at.0, at.1); }
  }

  /** Where the next id is found: its range, or their number, and its lower half. */
  function At(rs: seq<Range>, c: Cursor): (nat, int)
    requires InStep(rs, c)
  {
    if c.cur.Some? && c.next <= rs[c.cur.value].max then (c.cur.value, c.next)
    else
      var i := if c.cur == None then 0 else c.cur.value + 1;
      (i, if i < |rs| then rs[i].min + 1 else -1)
  }

  lemma NextIdMoves(rs: seq<Range>, t: nat, owner: Owner, c: Cursor)
    requires OneOwner(rs, owner) && InStep(rs, c)
    requires forall i :: 0 <= i < |rs| ==> GoodRange(rs[i])
    ensures var (i, id) := At(rs, c);
      var (c', full) := NextId(rs, t, owner, c);
      && InStep(rs, c')
      && (if i < |rs| then c' == Cursor(Some(i), id + 1) && full == FullId(t, id) && full != -1
          else (full == -1 <==> StopsAtEnd(rs)) && (full == -1 <==> c' == START))
  {
    hide StopsAtEnd, WrapSearch;
    var from := if c.cur == None then 0 else c.cur.value;
    assert NextOwned(rs, from, owner) == from;
    WrapSearchFinds(rs, owner);
    if rs == [] { EmptyStops(rs); }
  }

  lemma EmptyStops(rs: seq<Range>)
    requires rs == []
    ensures StopsAtEnd(rs)
  {
  }

  lemma RestAt(rs: seq<Range>, t: nat, c: Cursor)
    requires InStep(rs, c) && forall i :: 0 <= i < |rs| ==> GoodRange(rs[i])
    ensures var (i, id) := At(rs, c);
      && (i < |rs| ==> rs[i].min < id <= rs[i].max)
      && Rest(rs, t, c) == if i == |rs| then [] else Rest(rs, t, Cursor(Some(i), id))
  {
    if c.cur.Some? && rs[c.cur.value].max < c.next {
      assert IdsFrom(t, c.next, rs[c.cur.value].max) == [];
      assert Rest(rs, t, c) == Ids(rs, t, c.cur.value + 1);
    }
  }

  lemma RestStep(rs: seq<Range>, t: nat, i: nat, next: int)
    requires i < |rs| && rs[i].min < next <= rs[i].max
    ensures Rest(rs, t, Cursor(Some(i), next)) == [FullId(t, next)] + Rest(rs, t, Cursor(Some(i), next + 1))
  {
    assert IdsFrom(t, next, rs[i].max) == [FullId(t, next)] + IdsFrom(t, next + 1, rs[i].max);
    hide IdsFrom, Ids, FullId;
    assert [FullId(t, next)] + IdsFrom(t, next + 1, rs[i].max) + Ids(rs, t, i + 1)
        == [FullId(t, next)] + (IdsFrom(t, next + 1, rs[i].max) + Ids(rs, t, i + 1));
  }

  /** The results of n calls one after the other. */
  function Calls(rs: seq<Range>, t: nat, owner: Owner, c: Cursor, n: nat): (r: (Cursor, seq<int>))
    requires Points(rs, c)
    ensures |r.1| == n && Points(rs, r.0)
    decreases n
  {
    if n == 0 then (c, [])
    else
      var (c', id) := NextId(rs, t, owner, c);
      var (last, ids) := Calls(rs, t, owner, c', n - 1);
      (last, [id] + ids)
  }

  lemma {:induction false} CallsTakeRest(rs: seq<Range>, t: nat, owner: Owner, c: Cursor)
    requires OneOwner(rs, owner) && InStep(rs, c)
    requires forall i :: 0 <= i < |rs| ==> GoodRange(rs[i])
    ensures var rest := Rest(rs, t, c);
      var (last, ids) := Calls(rs, t, owner, c, |rest| + 1);
      && ids[..|rest|] == rest
      && (ids[|rest|] == -1 <==> StopsAtEnd(rs)) && (ids[|rest|] == -1 <==> last == START)
    decreases |Rest(rs, t, c)|
  {
    hide Rest, NextId, StopsAtEnd;
    var rest := Rest(rs, t, c);
    NextIdTakesNext(rs, t, owner, c);
    var (c', id) := NextId(rs, t, owner, c);
    if rest == [] {
      assert Calls(rs, t, owner, c', 0) == (c', []);
      assert Calls(rs, t, owner, c, 1).1 == [id];
    } else {
      CallsTakeRest(rs, t, owner, c');
      var (last, ids) := Calls(rs, t, owner, c', |rest|);
      assert ([id] + ids)[..|rest|] == [id] + ids[..|rest| - 1];
    }
  }

  /**
   From the start, the calls return every id of every range once and in order.
   Then they return -1, and are back at the start, exactly when no range that
   counts more than it holds comes before one with room.
  */
  lemma CallsEnumerate(rs: seq<Range>, t: nat, owner: Owner)
    requires OneOwner(rs, owner)
    requires forall i :: 0 <= i < |rs| ==> GoodRange(rs[i])
    ensures var ids := Ids(rs, t, 0); Calls(rs, t, owner, START, |ids|).1 == ids
    ensures var ids := Ids(rs, t, 0);
      Calls(rs, t, owner, START, |ids| + 1) == (START, ids + [-1]) <==> StopsAtEnd(rs)
  {
    hide StopsAtEnd, NextId, Ids;
    var ids := Ids(rs, t, 0);
    CallsTakeRest(rs, t, owner, START);
    var (last, all) := Calls(rs, t, owner, START, |ids| + 1);
    assert all == all[..|ids|] + [all[|ids|]];
    CallsExtend(rs, t, owner, START, |ids|);
  }

  /** One more call adds one more result. */
  lemma {:induction false} CallsExtend(rs: seq<Range>, t: nat, owner: Owner, c: Cursor, n: nat)
    requires Points(rs, c)
    ensures Calls(rs, t, owner, c, n + 1).1[..n] == Calls(rs, t, owner, c, n).1
    decreases n
  {
    hide NextId;
    if n == 0 {
    } else {
      var (c', id) := NextId(rs, t, owner, c);
      CallsExtend(rs, t, owner, c', n - 1);
      var more, less := Calls(rs, t, owner, c', n).1, Calls(rs, t, owner, c', n - 1).1;
      assert ([id] + more)[..n] == [id] + more[..n - 1];
    }
  }

  /** An id of one of the ranges from i on. */
  ghost predicate IsIdOf(rs: seq<Range>, t: nat, i: nat, id: int) {
    exists j, k {:trigger rs[j].Contains(k)} :: i <= j < |rs| && rs[j].Contains(k) && id == FullId(t, k)
  }

  lemma IdsOfFirst(rs: seq<Range>, t: nat, i: nat, id: int)
    requires i < |rs|
    ensures IsIdOf(rs, t, i, id) <==> id in IdsFrom(t, rs[i].min + 1, rs[i].max) || IsIdOf(rs, t, i + 1, id)
  {
    var ids := IdsFrom(t, rs[i].min + 1, rs[i].max);
    hide FullId;
    if id in ids {
      var k :| 0 <= k < |ids| && ids[k] == id;
      assert rs[i].Contains(rs[i].min + 1 + k);
    }
    if IsIdOf(rs, t, i, id) && !IsIdOf(rs, t, i + 1, id) {
      var k :| rs[i].Contains(k) && id == FullId(t, k);
      assert ids[k - rs[i].min - 1] == id;
    }
  }

  lemma FullIdGrows(t: nat, a: int, b: int)
    ensures FullId(t, a) < FullId(t, b) <==> a < b
  {
  }

  lemma IdsFromRise(t: nat, from: int, max: int)
    ensures var ids := IdsFrom(t, from, max); forall x, y :: 0 <= x < y < |ids| ==> ids[x] < ids[y]
  {
    var ids := IdsFrom(t, from, max);
    forall x, y | 0 <= x < y < |ids| ensures ids[x] < ids[y] { FullIdGrows(t, from + x, from + y); }
  }

  /** Every id of a range is below all of the ranges behind it. */
  lemma IdsRise(rs: seq<Range>, t: nat, i: nat, a: int, b: int)
    requires Sorted(rs) && i < |rs| && a in IdsFrom(t, rs[i].min + 1, rs[i].max) && IsIdOf(rs, t, i + 1, b)
    ensures a < b
  {
    var ids := IdsFrom(t, rs[i].min + 1, rs[i].max);
    var x :| 0 <= x < |ids| && ids[x] == a;
    var j, k :| i < j < |rs| && rs[j].Contains(k) && b == FullId(t, k);
    assert rs[i].max <= rs[j].min;
    FullIdGrows(t, rs[i].min + 1 + x, k);
  }

  /** The enumeration has exactly the ids of the ranges, with the type above them, in increasing order. */
  lemma {:induction false} IdsAreTheIds(rs: seq<Range>, t: nat, i: nat)
    requires Sorted(rs) && i <= |rs|
    ensures forall id :: id in Ids(rs, t, i) <==> IsIdOf(rs, t, i, id)
    ensures forall a, b :: 0 <= a < b < |Ids(rs, t, i)| ==> Ids(rs, t, i)[a] < Ids(rs, t, i)[b]
    decreases |rs| - i
  {
    if i == |rs| {
    } else {
      IdsAreTheIds(rs, t, i + 1);
      var a, b := IdsFrom(t, rs[i].min + 1, rs[i].max), Ids(rs, t, i + 1);
      IdsFromRise(t, rs[i].min + 1, rs[i].max);
      assert Ids(rs, t, i) == a + b;
      hide Ids, IdsFrom, IsIdOf, Sorted;
      forall id ensures id in a + b <==> IsIdOf(rs, t, i, id) { IdsOfFirst(rs, t, i, id); }
      forall x, y | 0 <= x < |a| && 0 <= y < |b| ensures a[x] < b[y] {
        assert a[x] in a && b[y] in b;
        IdsRise(rs, t, i, a[x], b[y]);
      }
    }
  }
}
