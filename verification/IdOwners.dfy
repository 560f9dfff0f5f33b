/**
 The enumeration of ids when several owners have ranges (common/reseditor.cpp):
 behind an exhausted range of its owner it goes on to the next range of the list,
 whoever that belongs to.
*/
module IdOwners {

  import opened IdRange

  /** Nothing, or an id of a range of the owner. */
  ghost predicate OwnResult(rs: seq<Range>, t: nat, owner: Owner, id: int) {
    id == -1 || exists i, low {:trigger rs[i].Contains(low)} ::
      0 <= i < |rs| && rs[i].owner == owner && rs[i].Contains(low) && id == FullId(t, low)
  }

  /** Behind a range of the owner come only ranges of the owner. */
  predicate OwnLast(rs: seq<Range>, owner: Owner) {
    forall i :: 0 < i < |rs| && rs[i - 1].owner == owner ==> rs[i].owner == owner
  }

  /** A cursor at the start or in a range of the owner. */
  predicate OnOwn(rs: seq<Range>, owner: Owner, c: Cursor) {
    c == START || (c.cur.Some? && InStep(rs, c) && rs[c.cur.value].owner == owner)
  }

  lemma OwnStaysOwn(rs: seq<Range>, t: nat, owner: Owner, c: Cursor)
    requires Sorted(rs) && OnOwn(rs, owner, c) && OwnLast(rs, owner)
    ensures var (c', id) := NextId(rs, t, owner, c); OnOwn(rs, owner, c') && OwnResult(rs, t, owner, id)
  {
    var (c', id) := NextId(rs, t, owner, c);
    if id != -1 { assert rs[c'.cur.value].Contains(c'.next - 1); }
  }

  lemma {:induction false} CallsStayOwn(rs: seq<Range>, t: nat, owner: Owner, c: Cursor, n: nat)
    requires Sorted(rs) && OnOwn(rs, owner, c) && OwnLast(rs, owner)
    ensures forall k :: 0 <= k < n ==> OwnResult(rs, t, owner, Calls(rs, t, owner, c, n).1[k])
    decreases n
  {
    if n == 0 {
    } else {
      OwnStaysOwn(rs, t, owner, c);
      var (c', id) := NextId(rs, t, owner, c);
      CallsStayOwn(rs, t, owner, c', n - 1);
    }
  }

  /** The last of the owner's ranges that follow each other from i on. */
  function BlockEnd(rs: seq<Range>, i: nat, owner: Owner): (r: nat)
    requires i < |rs| && rs[i].owner == owner
    ensures i <= r < |rs| && (forall k :: i <= k <= r ==> rs[k].owner == owner)
    ensures r + 1 < |rs| ==> rs[r + 1].owner != owner
    decreases |rs| - i
  {
    if i + 1 < |rs| && rs[i + 1].owner == owner then BlockEnd(rs, i + 1, owner) else i
  }

  /** The first id of a range of another owner is in no range of the owner. */
  lemma ForeignId(rs: seq<Range>, t: nat, owner: Owner, i: nat)
    requires Sorted(rs) && i < |rs| && rs[i].owner != owner
    ensures !OwnResult(rs, t, owner, FullId(t, rs[i].min + 1))
  {
    forall k, low | 0 <= k < |rs| && rs[k].owner == owner && rs[k].Contains(low) ensures low != rs[i].min + 1 {
      if k < i { assert rs[k].max <= rs[i].min; } else { assert rs[i].max <= rs[k].min; }
    }
  }

  /** Inside a block, a call goes on in the same range or moves to the next. */
  lemma StepsOn(rs: seq<Range>, t: nat, owner: Owner, c: Cursor)
    requires Sorted(rs) && OnOwn(rs, owner, c) && c.cur.Some?
    requires c.next <= rs[c.cur.value].max || c.cur.value < BlockEnd(rs, c.cur.value, owner)
    ensures var c' := NextId(rs, t, owner, c).0;
      && OnOwn(rs, owner, c') && c'.cur.Some?
      && BlockEnd(rs, c'.cur.value, owner) == BlockEnd(rs, c.cur.value, owner)
      && (c' == Cursor(c.cur, c.next + 1) || c'.cur.value == c.cur.value + 1)
  {
    assert NextOwned(rs, c.cur.value, owner) == c.cur.value;
  }

  /** At the end of a block, a call goes on to a range of another owner. */
  lemma StepsOut(rs: seq<Range>, t: nat, owner: Owner, c: Cursor)
    requires Sorted(rs) && OnOwn(rs, owner, c) && c.cur.Some?
    requires rs[c.cur.value].max < c.next && BlockEnd(rs, c.cur.value, owner) == c.cur.value < |rs| - 1
    ensures NextId(rs, t, owner, c).1 == FullId(t, rs[c.cur.value + 1].min + 1)
  {
  }

  /** From a range whose block does not end the list, enough calls give the first id of the range behind the block. */
  lemma {:induction false} RunsIntoForeign(rs: seq<Range>, t: nat, owner: Owner, c: Cursor) returns (n: nat)
    requires Sorted(rs) && OnOwn(rs, owner, c) && c.cur.Some? && BlockEnd(rs, c.cur.value, owner) + 1 < |rs|
    ensures var foreign := BlockEnd(rs, c.cur.value, owner) + 1;
      n > 0 && Calls(rs, t, owner, c, n).1[n - 1] == FullId(t, rs[foreign].min + 1)
    decreases |rs| - c.cur.value, rs[c.cur.value].max - c.next + 1
  {
    hide NextId, BlockEnd, Sorted, FullId;
    var (c', id) := NextId(rs, t, owner, c);
    var cur := c.cur.value;
    if rs[cur].max < c.next && BlockEnd(rs, cur, owner) == cur {
      StepsOut(rs, t, owner, c);
      n := 1;
      assert Calls(rs, t, owner, c', 0) == (c', []);
    } else {
      StepsOn(rs, t, owner, c);
      n := RunsIntoForeign(rs, t, owner, c');
      assert Calls(rs, t, owner, c, n + 1).1 == [id] + Calls(rs, t, owner, c', n).1;
      n := n + 1;
    }
  }

  lemma StartsOwn(rs: seq<Range>, t: nat, owner: Owner)
    requires Sorted(rs) && !OwnLast(rs, owner)
    ensures var first := NextOwned(rs, 0, owner); var c := NextId(rs, t, owner, START).0;
      && first < |rs| && OnOwn(rs, owner, c) && c.cur.Some? && c.cur.value == first
      && BlockEnd(rs, first, owner) + 1 < |rs|
  {
  }

  /** When a range of another owner stands behind one of the owner's, some call gives an id of no range of the owner. */
  lemma LeavesOwn(rs: seq<Range>, t: nat, owner: Owner) returns (n: nat)
    requires Sorted(rs) && !OwnLast(rs, owner)
    ensures n > 0 && !OwnResult(rs, t, owner, Calls(rs, t, owner, START, n).1[n - 1])
  {
    hide OwnLast, OwnResult, BlockEnd, Sorted, NextId, NextOwned, OnOwn;
    StartsOwn(rs, t, owner);
    var first := NextOwned(rs, 0, owner);
    var (c, id) := NextId(rs, t, owner, START);
    var m := RunsIntoForeign(rs, t, owner, c);
    ForeignId(rs, t, owner, BlockEnd(rs, first, owner) + 1);
    n := m + 1;
    assert Calls(rs, t, owner, START, n).1 == [id] + Calls(rs, t, owner, c, m).1;
  }

  /** The enumeration gives its owner nothing but ids of the owner's ranges exactly when these end the list. */
  lemma OnlyOwnIds(rs: seq<Range>, t: nat, owner: Owner)
    requires Sorted(rs)
    ensures (forall n: nat, k: nat | k < n :: OwnResult(rs, t, owner, Calls(rs, t, owner, START, n).1[k])) <==>
      OwnLast(rs, owner)
  {
    if OwnLast(rs, owner) {
      forall n: nat, k: nat | k < n ensures OwnResult(rs, t, owner, Calls(rs, t, owner, START, n).1[k]) {
        CallsStayOwn(rs, t, owner, START, n);
      }
    } else {
      hide OwnLast, OwnResult, Sorted, Calls;
      var n := LeavesOwn(rs, t, owner);
    }
  }
}
