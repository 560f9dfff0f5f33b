/**
 The linked lists of id ranges (include/resenv.h, common/reseditor.cpp): every
 manager links its ranges in both directions, every owner links its own, newest
 first, and loading a saved file builds both (mainframe/mainframe.cpp).
*/
module IdLinks {

  import opened IdRange
  import opened IdReload

  /** The i-th range of a list, or null before its beginning and behind its end. */
  ghost function Nth(list: seq<IDRange>, i: int): IDRange? {
    if 0 <= i < |list| then list[i] else null
  }

  /** The range, if there is one. */
  ghost function Only(r: IDRange?): set<IDRange> {
    if r == null then {} else {r}
  }

  /** Ranges in the order in which they were made. */
  ghost predicate Ascending(list: seq<IDRange>) {
    forall i, k :: 0 <= i < k < |list| ==> list[i].stamp < list[k].stamp
  }

  ghost predicate Descending(list: seq<IDRange>) {
    forall i, k :: 0 <= i < k < |list| ==> list[k].stamp < list[i].stamp
  }

  ghost predicate OlderThan(list: seq<IDRange>, stamp: nat) {
    forall i :: 0 <= i < |list| ==> list[i].stamp < stamp
  }

  lemma AppendAscends(list: seq<IDRange>, idrange: IDRange)
    requires Ascending(list) && OlderThan(list, idrange.stamp)
    ensures Ascending(list + [idrange]) && idrange !in list
  {
  }

  lemma PrependDescends(list: seq<IDRange>, idrange: IDRange)
    requires Descending(list) && OlderThan(list, idrange.stamp)
    ensures Descending([idrange] + list) && idrange !in list
  {
  }

  /** What a range refers to in one of its two lists. */
  datatype Link = Link(next: IDRange?, prev: IDRange?, manager: RangeList?, owner: IDRangeOwner?)

  class IDRange {
    var min: nat
    var max: nat
    var used: nat
    var isNew: bool
    var next: IDRange?
    var prev: IDRange?
    var nextSibling: IDRange?
    var prevSibling: IDRange?
    var owner: IDRangeOwner?
    var manager: RangeList?

    /** When the range was made. */
    ghost const stamp: nat

    constructor (min: nat, max: nat, ghost stamp: nat)
      ensures this.min == min && this.max == max && used == UNSET && isNew && this.stamp == stamp
      ensures next == null && prev == null && nextSibling == null && prevSibling == null
      ensures owner == null && manager == null
    {
      this.min, this.max, used, isNew := min, max, UNSET, true;
      next, prev, nextSibling, prevSibling := null, null, null, null;
      owner, manager := null, null;
      this.stamp := stamp;
    }

    ghost function Value(): Range
      reads this
      requires owner != null
    {
      Range(min, max, used, owner.name, isNew)
    }

    /** The tests that let extend go ahead. */
    predicate Allows(min: int, max: int)
      reads this, prev, next
    {
      && !(min > 0 && prev != null && min < prev.max)
      && !(max > 0 && next != null && next.min < max)
      && !(min > 0 && (if max > 0 then max else this.max) <= min)
      && !(max > 0 && max <= (if min > 0 then min else this.min))
    }

    method Extend(min: int, max: int) returns (ok: bool)
      requires owner != null
      modifies this`min, this`max, this`isNew
      ensures Value() == if old(Allows(min, max)) then Extended(old(Value()), min, max) else old(Value())
      ensures ok <==> old(Allows(min, max)) && (min > 0 || max > 0)
    {
      ok := false;
      if (min > 0 && prev != null && min < prev.max) || (max > 0 && next != null && next.min < max) {
        return;
      }
      if (min > 0 && (if max > 0 then max else this.max) <= min)
         || (max > 0 && max <= (if min > 0 then min else this.min)) {
        return;
      }
      var changed := false;
      if min > 0 {
        if min != this.min {
          changed := true;
          this.min := Word16(min);
        }
        ok := true;
      }
      if max > 0 {
        if max != this.max {
          changed := true;
          this.max := Word16(max);
        }
        ok := true;
      }
      if changed { isNew := true; }
    }
  }

  class IDRangeOwner {
    const name: Owner
    var header: IDRange?
    ghost var list: seq<IDRange>

    constructor (name: Owner)
      ensures this.name == name && Linked() && list == []
    {
      this.name := name;
      header := null;
      list := [];
    }

    /** The links of the list go in both directions, and every range of it has this owner. */
    ghost predicate Chained()
      reads this, list
    {
      && header == Nth(list, 0)
      && (forall i {:trigger list[i].nextSibling} :: 0 <= i < |list| ==> list[i].nextSibling == Nth(list, i + 1))
      && (forall i {:trigger list[i].prevSibling} :: 0 <= i < |list| ==> list[i].prevSibling == Nth(list, i - 1))
      && (forall i {:trigger list[i].owner} :: 0 <= i < |list| ==> list[i].owner == this)
    }

    /** The list runs through ranges of this owner, the newest first. */
    ghost predicate Linked()
      reads this, list
    {
      Chained() && Descending(list)
    }

    ghost function Links(): seq<Link>
      reads this, list
    {
      seq(|list|, i requires 0 <= i < |list|
        reads this, list => Link(list[i].nextSibling, list[i].prevSibling, null, list[i].owner))
    }

    ghost predicate LinkedBy(header: IDRange?, list: seq<IDRange>, links: seq<Link>) {
      && |links| == |list| && header == Nth(list, 0) && Descending(list)
      && forall i {:trigger links[i]} :: 0 <= i < |list| ==>
        links[i] == Link(Nth(list, i + 1), Nth(list, i - 1), null, this)
    }

    lemma LinkedByLinks()
      ensures Linked() <==> LinkedBy(header, list, Links())
    {
      ghost var links := Links();
      if Linked() {
        forall i | 0 <= i < |list| ensures links[i] == Link(Nth(list, i + 1), Nth(list, i - 1), null, this) {
          assert list[i].nextSibling == Nth(list, i + 1) && list[i].prevSibling == Nth(list, i - 1)
            && list[i].owner == this;
        }
      }
      if LinkedBy(header, list, links) {
        forall i | 0 <= i < |list|
          ensures list[i].nextSibling == Nth(list, i + 1) && list[i].prevSibling == Nth(list, i - 1)
            && list[i].owner == this
        {
          assert links[i] == Link(list[i].nextSibling, list[i].prevSibling, null, list[i].owner);
        }
      }
    }

    lemma FirstIsMine()
      requires Linked() && list != []
      ensures list[0].owner == this
    {
    }

    method AddIDRange(idrange: IDRange)
      requires Linked() && OlderThan(list, idrange.stamp)
      modifies this`header, this`list, idrange`owner, idrange`nextSibling, idrange`prevSibling,
               Only(header)`prevSibling
      ensures Linked() && list == [idrange] + old(list) && idrange.owner == this
    {
      PrependDescends(list, idrange);
      hide Descending, OlderThan;
      idrange.owner := this;
      if header == null {
        header := idrange;
        idrange.nextSibling, idrange.prevSibling := null, null;
      } else {
        idrange.prevSibling := header.prevSibling;
        idrange.nextSibling := header;
        header.prevSibling := idrange;
        header := idrange;
      }
      list := [idrange] + list;
    }
  }

  /** The part of a range manager that keeps the list of its ranges. */
  class RangeList {
    var header: IDRange?
    ghost var list: seq<IDRange>

    constructor ()
      ensures Linked() && list == []
    {
      header := null;
      list := [];
    }

    /** The links of the list go in both directions, and every range of it has this manager. */
    ghost predicate Chained()
      reads this, list
    {
      && header == Nth(list, 0)
      && (forall i {:trigger list[i].next} :: 0 <= i < |list| ==> list[i].next == Nth(list, i + 1))
      && (forall i {:trigger list[i].prev} :: 0 <= i < |list| ==> list[i].prev == Nth(list, i - 1))
      && (forall i {:trigger list[i].manager} :: 0 <= i < |list| ==> list[i].manager == this)
    }

    ghost predicate Owned()
      reads this, list
    {
      forall i :: 0 <= i < |list| ==> list[i].owner != null
    }

    /** The list runs through ranges of this manager that have an owner, the oldest first. */
    ghost predicate Linked()
      reads this, list
    {
      Chained() && Owned() && Ascending(list)
    }

    ghost function Links(): seq<Link>
      reads this, list
    {
      seq(|list|, i requires 0 <= i < |list|
        reads this, list => Link(list[i].next, list[i].prev, list[i].manager, list[i].owner))
    }

    ghost predicate LinkedBy(header: IDRange?, list: seq<IDRange>, links: seq<Link>) {
      && |links| == |list| && header == Nth(list, 0) && Ascending(list)
      && forall i {:trigger links[i]} :: 0 <= i < |list| ==>
           links[i].owner != null && links[i] == Link(Nth(list, i + 1), Nth(list, i - 1), this, links[i].owner)
    }

    lemma LinkedByLinks()
      ensures Linked() <==> LinkedBy(header, list, Links())
    {
      ghost var links := Links();
      if Linked() {
        forall i | 0 <= i < |list|
          ensures links[i].owner != null && links[i] == Link(Nth(list, i + 1), Nth(list, i - 1), this, links[i].owner)
        {
          assert list[i].next == Nth(list, i + 1) && list[i].prev == Nth(list, i - 1) && list[i].manager == this;
        }
      }
      if LinkedBy(header, list, links) {
        forall i | 0 <= i < |list|
          ensures list[i].next == Nth(list, i + 1) && list[i].prev == Nth(list, i - 1)
          ensures list[i].manager == this && list[i].owner != null
        {
          assert links[i] == Link(list[i].next, list[i].prev, list[i].manager, list[i].owner);
        }
      }
    }

    ghost function Ranges(): (r: seq<Range>)
      requires Owned()
      reads this, list
      ensures |r| == |list| && forall i :: 0 <= i < |list| ==> r[i] == list[i].Value()
    {
      seq(|list|, i requires 0 <= i < |list| reads this, list requires Owned() => list[i].Value())
    }

    /** The neighbours that extend looks at are those of the list. */
    lemma AllowsInList(i: nat, min: int, max: int)
      requires Linked() && i < |list|
      ensures list[i].Allows(min, max) <==> CanExtend(Ranges(), i, min, max)
    {
      var rs := Ranges();
      assert list[i].prev == Nth(list, i - 1) && list[i].next == Nth(list, i + 1);
      if i > 0 { assert rs[i - 1].max == list[i - 1].max; }
      if i + 1 < |list| { assert rs[i + 1].min == list[i + 1].min; }
    }

    method ExtendRange(idrange: IDRange, min: int, max: int, ghost i: nat) returns (ok: bool)
      requires Linked() && i < |list| && list[i] == idrange
      modifies idrange`min, idrange`max, idrange`isNew
      ensures Linked() && Ranges() == IdReload.Extend(old(Ranges()), i, min, max)
      ensures ok <==> CanExtend(old(Ranges()), i, min, max) && (min > 0 || max > 0)
    {
      ghost var was := Ranges();
      AllowsInList(i, min, max);
      hide Ascending, CanExtend;
      assert forall k :: 0 <= k < |list| && k != i ==> list[k] != idrange by { StampsDiffer(i); }
      ok := idrange.Extend(min, max);
      OthersKeep(was, i);
    }

    lemma StampsDiffer(i: nat)
      requires Ascending(list) && i < |list|
      ensures forall k :: 0 <= k < |list| && k != i ==> list[k] != list[i]
    {
    }

    /** Ranges that differ at one place only. */
    lemma OthersKeep(was: seq<Range>, i: nat)
      requires Owned() && |was| == |list| && i < |list|
      requires forall k :: 0 <= k < |list| && k != i ==> list[k].Value() == was[k]
      ensures Ranges() == was[i := list[i].Value()]
    {
    }

    /** The last range, found by walking over all of them. */
    method Last(ghost max: nat) returns (prev: IDRange)
      requires Linked() && list != [] && LandsLast(Ranges(), max)
      ensures prev == list[|list| - 1]
    {
      prev := header;
      var idrange, k := header, 0;
      while idrange != null
        invariant k <= |list| && idrange == Nth(list, k)
        invariant prev == if k == 0 then list[0] else list[k - 1]
        decreases |list| - k
      {
        assert idrange == list[k] && Ranges()[k].min < max;
        prev := idrange;
        idrange := idrange.next;
        k := k + 1;
      }
    }

    /** Links a range behind the last one. */
    method LinkLast(prev: IDRange?, idrange: IDRange)
      requires Chained() && prev == Nth(list, |list| - 1)
      requires idrange !in list && idrange.next == null && idrange.prev == null
      requires prev != null ==> forall i :: 0 <= i < |list| - 1 ==> list[i] != prev
      modifies this`header, this`list, Only(prev)`next,
               idrange`manager, idrange`next, idrange`prev
      ensures Chained() && list == old(list) + [idrange]
    {
      idrange.manager := this;
      if prev == null {
        header := idrange;
      } else {
        idrange.next := prev.next;
        idrange.prev := prev;
        prev.next := idrange;
      }
      list := list + [idrange];
    }

    /** Makes a range, links it behind the last one and in front of its owner's. */
    method Append(prev: IDRange?, min: nat, max: nat, owner: IDRangeOwner, ghost stamp: nat) returns (idrange: IDRange)
      requires Linked() && owner.Linked() && prev == Nth(list, |list| - 1)
      requires OlderThan(list, stamp) && OlderThan(owner.list, stamp)
      modifies this`header, this`list, Only(prev)`next,
               owner`header, owner`list, Only(owner.header)`prevSibling
      ensures Linked() && owner.Linked() && fresh(idrange) && idrange.stamp == stamp
      ensures list == old(list) + [idrange] && owner.list == [idrange] + old(owner.list)
      ensures Ranges() == old(Ranges()) + [NewRange(min, max, owner.name)]
    {
      hide Ascending, OlderThan, Descending, Nth;
      ghost var was := Ranges();
      idrange := Create(prev, min, max, stamp);
      assert forall k :: 0 <= k < |was| ==> list[k].owner != null && list[k].Value() == was[k];
      assert owner.Linked();
      owner.AddIDRange(idrange);
      OneMore(was);
    }

    /** Makes a range and links it behind the last one. */
    method Create(prev: IDRange?, min: nat, max: nat, ghost stamp: nat) returns (idrange: IDRange)
      requires Chained() && Ascending(list) && OlderThan(list, stamp) && prev == Nth(list, |list| - 1)
      modifies this`header, this`list, Only(prev)`next
      ensures Chained() && Ascending(list) && list == old(list) + [idrange] && fresh(idrange)
      ensures idrange.min == min && idrange.max == max && idrange.used == UNSET && idrange.isNew
      ensures idrange.stamp == stamp
    {
      idrange := new IDRange(min, max, stamp);
      AppendAscends(list, idrange);
      if prev != null { StampsDiffer(|list| - 1); }
      hide Ascending, OlderThan;
      LinkLast(prev, idrange);
    }

    lemma OneMore(was: seq<Range>)
      requires |list| == |was| + 1 && list[|was|].owner != null
      requires forall k :: 0 <= k < |was| ==> list[k].owner != null && list[k].Value() == was[k]
      ensures Owned() && Ranges() == was + [list[|was|].Value()]
    {
    }

    /** What a call leaves: the lists as they were, or a new range behind the others and in front of its owner's. */
    twostate predicate Grown(owner: IDRangeOwner, stamp: nat)
      reads this, owner
    {
      || (list == old(list) && owner.list == old(owner.list))
      || (list != [] && var idrange := list[|list| - 1];
          fresh(idrange) && idrange.stamp == stamp
          && list == old(list) + [idrange] && owner.list == [idrange] + old(owner.list))
    }

    /** addIDRange for a range that lands at the tail of the list. */
    method AddIDRange(min: nat, max: nat, owner: IDRangeOwner, ghost stamp: nat) returns (idrange: IDRange?)
      requires Linked() && owner.Linked() && Sorted(Ranges()) && max <= UNSET && LandsLast(Ranges(), max)
      requires forall r :: r in list && r.owner.name == owner.name ==> r.owner == owner
      requires OlderThan(list, stamp) && OlderThan(owner.list, stamp)
      modifies this`header, this`list, owner`header, owner`list,
               Only(owner.header)`prevSibling,
               Only(Nth(list, |list| - 1))`next, Only(Nth(list, |list| - 1))`min,
               Only(Nth(list, |list| - 1))`max, Only(Nth(list, |list| - 1))`isNew
      ensures Linked() && owner.Linked() && Grown(owner, stamp)
      ensures Ranges() == AddLast(old(Ranges()), min, max, owner.name)
    {
      if max <= min { return null; }
      hide Chained, Ascending, Descending, OlderThan, IdReload.Extend;
      if header == null {
        Empty();
        idrange := Append(null, min, max, owner, stamp);
        return;
      }
      NotEmpty();
      var prev := Last(max);
      idrange := AddBehind(prev, min, max, owner, stamp);
    }

    /** The end of addIDRange, when the last range is known. */
    method AddBehind(prev: IDRange, min: nat, max: nat, owner: IDRangeOwner, ghost stamp: nat)
        returns (idrange: IDRange?)
      requires Linked() && owner.Linked() && Sorted(Ranges()) && min < max <= UNSET
      requires list != [] && prev == list[|list| - 1] && (prev.owner.name == owner.name ==> prev.owner == owner)
      requires OlderThan(list, stamp) && OlderThan(owner.list, stamp)
      modifies this`header, this`list, owner`header, owner`list,
               Only(owner.header)`prevSibling,
               prev`next, prev`min, prev`max, prev`isNew
      ensures Linked() && owner.Linked() && Grown(owner, stamp)
      ensures Ranges() == AddLast(old(Ranges()), min, max, owner.name)
    {
      hide Chained, Ascending, Descending, OlderThan, IdReload.Extend, Sorted;
      var last := |list| - 1;
      assert Ranges()[last] == prev.Value();
      if min <= prev.max && prev.owner == owner {
        var _ := ExtendRange(prev, prev.min, if prev.max < max then max else prev.max, last);
        return prev;
      }
      var from := min;
      if min <= prev.max {
        from := prev.max + 1;
        if max <= from { return null; }
      }
      idrange := Append(prev, from, max, owner, stamp);
    }

    lemma LinkedIsOwned()
      requires Linked()
      ensures Owned()
    {
    }

    lemma LastIsMine()
      requires Linked() && list != []
      ensures list[|list| - 1].manager == this
    {
    }

    lemma Empty()
      requires Chained() && header == null
      ensures list == []
    {
    }

    lemma NotEmpty()
      requires Chained() && header != null
      ensures list != []
    {
    }
  }

  /** addIDRange, seen by other lists and other owners. */
  method AddBesides(m: RangeList, min: nat, max: nat, owner: IDRangeOwner, ghost stamp: nat,
                    ghost lists: set<RangeList>, ghost owners: set<IDRangeOwner>)
    requires m.Linked() && owner.Linked() && Sorted(m.Ranges()) && max <= UNSET && LandsLast(m.Ranges(), max)
    requires forall r :: r in m.list && r.owner.name == owner.name ==> r.owner == owner
    requires OlderThan(m.list, stamp) && OlderThan(owner.list, stamp)
    requires forall m2 :: m2 in lists ==> m2 != m && (m.list == [] || m.list[|m.list| - 1] !in m2.list)
    requires forall o :: o in owners ==> o != owner && (owner.header == null || owner.header !in o.list)
    modifies m`header, m`list, owner`header, owner`list, Only(owner.header)`prevSibling,
             Only(Nth(m.list, |m.list| - 1))`next, Only(Nth(m.list, |m.list| - 1))`min,
             Only(Nth(m.list, |m.list| - 1))`max, Only(Nth(m.list, |m.list| - 1))`isNew
    ensures m.Linked() && owner.Linked() && m.Ranges() == AddLast(old(m.Ranges()), min, max, owner.name)
    ensures m.Grown(owner, stamp)
    ensures forall m2 :: m2 in lists ==> m2.header == old(m2.header) && m2.list == old(m2.list)
    ensures forall m2 :: m2 in lists ==> m2.Links() == old(m2.Links())
    ensures forall o :: o in owners ==> o.header == old(o.header) && o.list == old(o.list)
    ensures forall o :: o in owners ==> o.Links() == old(o.Links())
  {
    hide RangeList.Linked, IDRangeOwner.Linked, OlderThan, Sorted, LandsLast, AddLast;
    var _ := m.AddIDRange(min, max, owner, stamp);
  }

  /** addIDRange keeps the other lists and the lists of the other owners linked. */
  method AddAmong(m: RangeList, min: nat, max: nat, owner: IDRangeOwner, ghost stamp: nat,
                  ghost lists: set<RangeList>, ghost owners: set<IDRangeOwner>)
    requires m.Linked() && owner.Linked() && Sorted(m.Ranges()) && max <= UNSET && LandsLast(m.Ranges(), max)
    requires forall r :: r in m.list && r.owner.name == owner.name ==> r.owner == owner
    requires OlderThan(m.list, stamp) && OlderThan(owner.list, stamp)
    requires forall m2 :: m2 in lists ==> m2 != m && m2.Linked()
    requires forall o :: o in owners ==> o != owner && o.Linked()
    modifies m`header, m`list, owner`header, owner`list, Only(owner.header)`prevSibling,
             Only(Nth(m.list, |m.list| - 1))`next, Only(Nth(m.list, |m.list| - 1))`min,
             Only(Nth(m.list, |m.list| - 1))`max, Only(Nth(m.list, |m.list| - 1))`isNew
    ensures m.Linked() && owner.Linked() && m.Ranges() == AddLast(old(m.Ranges()), min, max, owner.name)
    ensures m.Grown(owner, stamp)
    ensures forall m2 :: m2 in lists ==> m2.list == old(m2.list) && m2.Linked()
    ensures forall o :: o in owners ==> o.list == old(o.list) && o.Linked()
  {
    Elsewhere(m, owner, lists, owners);
    AllByLinks(lists, owners);
    hide RangeList.Linked, RangeList.LinkedBy, IDRangeOwner.Linked, IDRangeOwner.LinkedBy, OlderThan, Sorted,
      LandsLast, AddLast;
    AddBesides(m, min, max, owner, stamp, lists, owners);
    AllByLinks(lists, owners);
  }

  lemma AllByLinks(lists: set<RangeList>, owners: set<IDRangeOwner>)
    ensures forall m :: m in lists ==> (m.Linked() <==> m.LinkedBy(m.header, m.list, m.Links()))
    ensures forall o :: o in owners ==> (o.Linked() <==> o.LinkedBy(o.header, o.list, o.Links()))
  {
    forall m | m in lists ensures m.Linked() <==> m.LinkedBy(m.header, m.list, m.Links()) { m.LinkedByLinks(); }
    forall o | o in owners ensures o.Linked() <==> o.LinkedBy(o.header, o.list, o.Links()) { o.LinkedByLinks(); }
  }

  /** The last range of a list is in no other, and the newest of an owner in no other's. */
  lemma Elsewhere(m: RangeList, owner: IDRangeOwner, lists: set<RangeList>, owners: set<IDRangeOwner>)
    requires m.Linked() && owner.Linked()
    requires forall m2 :: m2 in lists ==> m2 != m && m2.Linked()
    requires forall o :: o in owners ==> o != owner && o.Linked()
    ensures m.list != [] ==> forall m2 :: m2 in lists ==> m.list[|m.list| - 1] !in m2.list
    ensures owner.header != null ==> forall o :: o in owners ==> owner.header !in o.list
  {
    if m.list != [] {
      assert m.list[|m.list| - 1].manager == m;
      forall m2 | m2 in lists ensures m.list[|m.list| - 1] !in m2.list {
        assert forall i :: 0 <= i < |m2.list| ==> m2.list[i].manager == m2;
      }
    }
    if owner.header != null {
      assert owner.list[0].owner == owner;
      forall o | o in owners ensures owner.header !in o.list {
        assert forall i :: 0 <= i < |o.list| ==> o.list[i].owner == o;
      }
    }
  }

  ghost predicate ListsLinked(lists: set<RangeList>)
    reads *
  {
    forall m :: m in lists ==> m.Linked()
  }

  ghost predicate OwnersLinked(owners: set<IDRangeOwner>)
    reads *
  {
    forall o :: o in owners ==> o.Linked()
  }

  /** Every range of a manager's list is in the list of its owner. */
  ghost predicate AllOwned(lists: set<RangeList>, owners: set<IDRangeOwner>, clock: nat)
    reads *
  {
    forall m, r :: m in lists && r in m.list ==>
      r.stamp < clock && r.owner != null && r.owner in owners && r in r.owner.list
  }

  /** Every range of an owner's list is in the list of its manager. */
  ghost predicate AllManaged(lists: set<RangeList>, owners: set<IDRangeOwner>, clock: nat)
    reads *
  {
    forall o, r :: o in owners && r in o.list ==>
      r.stamp < clock && r.manager != null && r.manager in lists && r in r.manager.list
  }

  /** All lists are well linked, and each range is in the list of its manager and in that of its owner. */
  ghost predicate WellKept(lists: set<RangeList>, owners: set<IDRangeOwner>, clock: nat)
    reads *
  {
    && ListsLinked(lists) && OwnersLinked(owners)
    && AllOwned(lists, owners, clock) && AllManaged(lists, owners, clock)
    && forall o, o' :: o in owners && o' in owners && o.name == o'.name ==> o == o'
  }

  /** Every owner's list is exactly the ranges of the managers' lists that are its own, the newest first. */
  lemma OwnersListTheirRanges(lists: set<RangeList>, owners: set<IDRangeOwner>, clock: nat, o: IDRangeOwner)
    requires WellKept(lists, owners, clock) && o in owners
    ensures Descending(o.list)
    ensures forall r :: r in o.list <==> exists m :: m in lists && r in m.list && r.owner == o
  {
    forall r | r in o.list ensures r.manager in lists && r in r.manager.list && r.owner == o {
      var i :| 0 <= i < |o.list| && o.list[i] == r;
      assert o.list[i].owner == o;
    }
  }

  /** What addIDRange demands of a manager's list and an owner. */
  lemma Ready(m: RangeList, owner: IDRangeOwner, clock: nat, lists: set<RangeList>, owners: set<IDRangeOwner>)
    requires WellKept(lists, owners, clock) && m in lists && owner in owners
    ensures m.Linked() && owner.Linked()
    ensures OlderThan(m.list, clock) && OlderThan(owner.list, clock)
    ensures forall r :: r in m.list && r.owner.name == owner.name ==> r.owner == owner
    ensures forall m2 :: m2 in lists ==> m2.Linked()
    ensures forall o :: o in owners ==> o.Linked()
  {
  }

  /** addIDRange, with all lists and all owners looking on: they stay linked. */
  method AddLinked(m: RangeList, min: nat, max: nat, owner: IDRangeOwner, ghost clock: nat,
             ghost lists: set<RangeList>, ghost owners: set<IDRangeOwner>)
    requires WellKept(lists, owners, clock) && m in lists && owner in owners
    requires Sorted(m.Ranges()) && max <= UNSET && LandsLast(m.Ranges(), max)
    modifies m`header, m`list, owner`header, owner`list, Only(owner.header)`prevSibling,
             Only(Nth(m.list, |m.list| - 1))`next, Only(Nth(m.list, |m.list| - 1))`min,
             Only(Nth(m.list, |m.list| - 1))`max, Only(Nth(m.list, |m.list| - 1))`isNew
    ensures m.Linked() && m.Ranges() == AddLast(old(m.Ranges()), min, max, owner.name) && m.Grown(owner, clock)
    ensures forall m2 :: m2 in lists - {m} ==> m2.list == old(m2.list)
    ensures forall o :: o in owners - {owner} ==> o.list == old(o.list)
    ensures ListsLinked(lists) && OwnersLinked(owners) && owner.Linked()
  {
    Ready(m, owner, clock, lists, owners);
    hide RangeList.Linked, IDRangeOwner.Linked, OlderThan, Sorted, LandsLast, AddLast, AllOwned, AllManaged,
      RangeList.Grown;
    AddAmong(m, min, max, owner, clock, lists - {m}, owners - {owner});
  }

  /** Every range stays in the list of its owner. */
  method AddOwned(m: RangeList, min: nat, max: nat, owner: IDRangeOwner, ghost clock: nat,
             ghost lists: set<RangeList>, ghost owners: set<IDRangeOwner>)
    requires WellKept(lists, owners, clock) && m in lists && owner in owners
    requires Sorted(m.Ranges()) && max <= UNSET && LandsLast(m.Ranges(), max)
    modifies m`header, m`list, owner`header, owner`list, Only(owner.header)`prevSibling,
             Only(Nth(m.list, |m.list| - 1))`next, Only(Nth(m.list, |m.list| - 1))`min,
             Only(Nth(m.list, |m.list| - 1))`max, Only(Nth(m.list, |m.list| - 1))`isNew
    ensures m.Linked() && m.Ranges() == AddLast(old(m.Ranges()), min, max, owner.name) && m.Grown(owner, clock)
    ensures forall m2 :: m2 in lists - {m} ==> m2.list == old(m2.list)
    ensures forall o :: o in owners - {owner} ==> o.list == old(o.list)
    ensures ListsLinked(lists) && OwnersLinked(owners) && AllOwned(lists, owners, clock + 1)
    ensures m.list != old(m.list) ==> m.list[|m.list| - 1].manager == m
  {
    hide RangeList.Linked, IDRangeOwner.Linked, OlderThan, Sorted, LandsLast, AddLast, ListsLinked, OwnersLinked,
      AllManaged;
    AddLinked(m, min, max, owner, clock, lists, owners);
    if m.list != old(m.list) {
      m.LastIsMine();
      owner.FirstIsMine();
    }
    forall m2, r | m2 in lists && r in m2.list
      ensures r.stamp < clock + 1 && r.owner != null && r.owner in owners && r in r.owner.list
    {
      if !fresh(r) {
        assert r in old(m2.list) && r.owner == old(r.owner) && r in old(r.owner.list);
        assert r.owner != owner ==> r.owner.list == old(r.owner.list);
      }
    }
  }

  /** And every range stays in the list of its manager. */
  method Add(m: RangeList, min: nat, max: nat, owner: IDRangeOwner, ghost clock: nat,
             ghost lists: set<RangeList>, ghost owners: set<IDRangeOwner>)
    requires WellKept(lists, owners, clock) && m in lists && owner in owners
    requires Sorted(m.Ranges()) && max <= UNSET && LandsLast(m.Ranges(), max)
    modifies m`header, m`list, owner`header, owner`list, Only(owner.header)`prevSibling,
             Only(Nth(m.list, |m.list| - 1))`next, Only(Nth(m.list, |m.list| - 1))`min,
             Only(Nth(m.list, |m.list| - 1))`max, Only(Nth(m.list, |m.list| - 1))`isNew
    ensures m.Linked() && m.Ranges() == AddLast(old(m.Ranges()), min, max, owner.name) && m.Grown(owner, clock)
    ensures forall m2 :: m2 in lists - {m} ==> m2.list == old(m2.list)
    ensures forall o :: o in owners - {owner} ==> o.list == old(o.list)
    ensures WellKept(lists, owners, clock + 1)
  {
    hide RangeList.Linked, IDRangeOwner.Linked, OlderThan, Sorted, LandsLast, AddLast, ListsLinked, OwnersLinked,
      AllOwned;
    AddOwned(m, min, max, owner, clock, lists, owners);
    forall o, r | o in owners && r in o.list
      ensures r.stamp < clock + 1 && r.manager != null && r.manager in lists && r in r.manager.list
    {
      if !fresh(r) {
        assert r in old(o.list) && r.manager == old(r.manager) && r in old(r.manager.list);
        assert r.manager != m ==> r.manager.list == old(r.manager.list);
      }
    }
  }

  /** The owners by their names. */
  class IDRangeOwnerManager {
    var owners: map<Owner, IDRangeOwner>
    ghost var made: set<IDRangeOwner>

    constructor ()
      ensures Valid() && owners == map[] && made == {}
    {
      owners := map[];
      made := {};
    }

    /** Exactly the owners that were made are found, each under its name. */
    ghost predicate Valid()
      reads this
    {
      && (forall n :: n in owners ==> owners[n].name == n && owners[n] in made)
      && (forall o :: o in made ==> o.name in owners && owners[o.name] == o)
    }

    /** getOwner, and newOwner if there is none of the name. */
    method OwnerOf(name: Owner, ghost lists: set<RangeList>, ghost clock: nat) returns (owner: IDRangeOwner)
      requires Valid() && WellKept(lists, made, clock)
      modifies this
      ensures Valid() && WellKept(lists, made, clock) && owner in made && owner.name == name
      ensures made == old(made) + {owner}
      ensures owner in old(made) || (fresh(owner) && owner.list == [])
    {
      if name in owners { return owners[name]; }
      owner := NewOwner(name, lists, clock);
    }

    method NewOwner(name: Owner, ghost lists: set<RangeList>, ghost clock: nat) returns (owner: IDRangeOwner)
      requires Valid() && WellKept(lists, made, clock) && name !in owners
      modifies this
      ensures Valid() && WellKept(lists, made, clock) && owner.name == name
      ensures made == old(made) + {owner} && fresh(owner) && owner.list == []
    {
      owner := new IDRangeOwner(name);
      hide RangeList.Linked, IDRangeOwner.Linked, Nth, Descending;
      OneMoreOwner(lists, made, owner, clock);
      hide WellKept;
      owners := owners[name := owner];
      made := made + {owner};
    }

    /** The objects that loading the ranges of one manager may change. */
    ghost predicate Within(m: RangeList, lists: set<RangeList>, repr: set<object>)
      reads *
    {
      && this in repr && m in repr && (forall r :: r in m.list ==> r in repr)
      && (forall o :: o in made ==> o in repr && forall r :: r in o.list ==> r in repr)
      && (forall m2 :: m2 in lists && m2 != m ==> m2 !in repr)
    }

    /** One range of a saved list; an owner that is not known yet is made. */
    method LoadOne(m: RangeList, range: Range, ghost clock: nat, ghost lists: set<RangeList>, ghost repr: set<object>)
      returns (ghost now: set<object>)
      requires Valid() && WellKept(lists, made, clock) && m in lists && Within(m, lists, repr)
      requires Sorted(m.Ranges()) && GoodRange(range) && LandsLast(m.Ranges(), range.max)
      modifies repr
      ensures Valid() && WellKept(lists, made, clock + 1) && Within(m, lists, now) && repr <= now && fresh(now - repr)
      ensures m.Linked() && m.Owned() && m.Ranges() == AddLast(old(m.Ranges()), range.min, range.max, range.owner)
    {
      hide WellKept, RangeList.Linked, IDRangeOwner.Linked, AddLast, LandsLast, Sorted;
      var owner := OwnerOf(range.owner, lists, clock);
      now := AddFor(m, range, owner, clock, lists, repr + {owner});
    }

    /** The same, when the owner is known. */
    method AddFor(m: RangeList, range: Range, owner: IDRangeOwner, ghost clock: nat, ghost lists: set<RangeList>,
        ghost repr: set<object>)
      returns (ghost now: set<object>)
      requires Valid() && WellKept(lists, made, clock) && m in lists && Within(m, lists, repr)
      requires owner in made && owner.name == range.owner
      requires Sorted(m.Ranges()) && GoodRange(range) && LandsLast(m.Ranges(), range.max)
      modifies repr
      ensures Valid() && WellKept(lists, made, clock + 1) && Within(m, lists, now) && repr <= now && fresh(now - repr)
      ensures m.Linked() && m.Owned() && m.Ranges() == AddLast(old(m.Ranges()), range.min, range.max, range.owner)
    {
      hide WellKept, RangeList.Linked, IDRangeOwner.Linked, AddLast, LandsLast, Sorted;
      HeaderIsOwn(owner, made, lists, clock);
      Add(m, range.min, range.max, owner, clock, lists, made);
      now := repr + Only(if m.list == old(m.list) then null else m.list[|m.list| - 1]);
      m.LinkedIsOwned();
    }

    /** The ranges of one manager, in the order in which they were written. */
    method LoadIDRanges(m: RangeList, saved: seq<Range>, ghost clock: nat, ghost lists: set<RangeList>,
        ghost repr: set<object>)
      returns (ghost now: set<object>)
      requires Valid() && WellKept(lists, made, clock) && m in lists && Within(m, lists, repr)
      requires m.Linked() && m.Owned() && m.Ranges() == [] && Sorted(saved)
      modifies repr
      ensures Valid() && WellKept(lists, made, clock + |saved|) && Within(m, lists, now) && repr <= now
        && fresh(now - repr)
      ensures m.Linked() && m.Ranges() == Reload(saved, |saved|)
    {
      hide *;
      NothingLoaded(saved);
      now := repr;
      var k := 0;
      while k < |saved|
        invariant k <= |saved| && Valid() && WellKept(lists, made, clock + k) && Within(m, lists, now)
        invariant repr <= now && fresh(now - repr)
        invariant m.Linked() && m.Owned() && m.Ranges() == Reload(saved, k)
      {
        LoadsInOrder(saved, k);
        now := LoadOne(m, saved[k], clock + k, lists, now);
        k := k + 1;
      }
    }
  }

  lemma NothingLoaded(saved: seq<Range>)
    ensures Reload(saved, 0) == []
  {
  }

  lemma LoadsInOrder(saved: seq<Range>, k: nat)
    requires Sorted(saved) && k < |saved|
    ensures var r := Reload(saved, k);
      && Sorted(r) && GoodRange(saved[k]) && LandsLast(r, saved[k].max)
      && Reload(saved, k + 1) == AddLast(r, saved[k].min, saved[k].max, saved[k].owner)
  {
    ReloadInOrder(saved, k);
  }

  lemma HeaderIsOwn(owner: IDRangeOwner, owners: set<IDRangeOwner>, lists: set<RangeList>, clock: nat)
    requires WellKept(lists, owners, clock) && owner in owners
    ensures owner.header != null ==> owner.header in owner.list
  {
    if owner.header != null { assert owner.header == owner.list[0]; }
  }

  lemma OneMoreOwner(lists: set<RangeList>, owners: set<IDRangeOwner>, owner: IDRangeOwner, clock: nat)
    requires WellKept(lists, owners, clock) && owner.Linked() && owner.list == []
    requires forall o :: o in owners ==> o.name != owner.name
    ensures WellKept(lists, owners + {owner}, clock)
  {
  }
}
