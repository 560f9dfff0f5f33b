/**
 The manager of the id ranges of one kind of resource (include/resenv.h,
 common/reseditor.cpp): enumeration of ids and use counters.  The linked list of
 ranges is a sequence here, and the current range is an index into it.
*/
module IdManager {

  import opened Common
  import opened IdRange
  import opened IdCounters
  import opened Wrappers

  class IDRangeManager {
    const kind: nat
    var ranges: seq<Range>
    var curIdRange: Option<nat>
    var nextId: int

    predicate Valid()
      reads this
    {
      kind < 0x8000 && Sorted(ranges) && Points(ranges, At())
    }

    function At(): Cursor
      reads this
    {
      Cursor(curIdRange, nextId)
    }

    constructor (kind: nat)
      requires kind < 0x8000
      ensures Valid() && this.kind == kind && ranges == [] && At() == START
    {
      this.kind := kind;
      ranges := [];
      curIdRange := None;
      nextId := -1;
    }

    method GetNextIdRange(begin: nat, owner: Owner) returns (i: nat)
      requires begin <= |ranges|
      ensures i == NextOwned(ranges, begin, owner)
    {
      i := begin;
      while i < |ranges| && ranges[i].owner != owner
        invariant begin <= i <= |ranges|
        invariant NextOwned(ranges, i, owner) == NextOwned(ranges, begin, owner)
      {
        i := i + 1;
      }
    }

    /** The search over all ranges again; the walk ends, as the last range is one of the owner's. */
    method FindRoom(owner: Owner) returns (i: nat)
      requires ranges != [] && ranges[|ranges| - 1].owner == owner
      ensures i == WrapSearch(ranges, owner)
    {
      i := 0;
      while i < |ranges| && ranges[i].UnusedCount() <= 0
        invariant i <= |ranges|
        invariant FirstOver(ranges, i) == FirstOver(ranges, 0)
      {
        i := i + 1;
      }
      while i < |ranges|
        invariant i <= |ranges|
        invariant FirstRoom(ranges, i, owner) == WrapSearch(ranges, owner)
      {
        i := GetNextIdRange(i, owner);
        if i < |ranges| && ranges[i].used < ranges[i].max - ranges[i].min { break; }
        i := i + 1;
      }
    }

    method NextId(owner: Owner) returns (id: int)
      requires Valid()
      modifies this`curIdRange, this`nextId
      ensures (At(), id) == IdRange.NextId(ranges, kind, owner, old(At()))
      ensures Valid()
    {
      hide NextOwned, WrapSearch, Sorted;
      var cur := GetNextIdRange(if curIdRange == None then 0 else curIdRange.value, owner);
      if cur == |ranges| {
        curIdRange := None;
        return -1;
      }
      if nextId <= ranges[cur].min {
        nextId := ranges[cur].min + 1;
      } else if ranges[cur].max < nextId {
        cur := cur + 1;
        if cur == |ranges| {
          cur := FindRoom(owner);
          if cur == |ranges| {
            curIdRange, nextId := None, -1;
            return -1;
          }
        }
        nextId := ranges[cur].min + 1;
      }
      curIdRange := Some(cur);
      id := nextId + kind * TYPE_UNIT;
      nextId := nextId + 1;
    }

    method GetIDRangeById(id: int) returns (i: nat)
      ensures i == RangeOf(ranges, Low(id))
    {
      i := 0;
      while i < |ranges| && !ranges[i].Contains(Low(id))
        invariant i <= |ranges|
        invariant RangeOf(ranges, Low(id), i) == RangeOf(ranges, Low(id))
      {
        i := i + 1;
      }
    }

    method UseId(id: int) returns (ok: bool)
      requires Valid()
      modifies this`ranges
      ensures ranges == Use(old(ranges), kind, id) && Valid()
      ensures ok <==> Counted(old(ranges), kind, id) < |old(ranges)|
    {
      if TypeOf(id) != kind { return false; }
      var i := GetIDRangeById(id);
      if i == |ranges| { return false; }
      var used := ranges[i].used;
      if used == UNSET { used := 0; }
      ranges := WithUsed(ranges, i, used + 1);
      ok := true;
    }

    method UnuseId(id: int) returns (ok: bool)
      requires Valid()
      modifies this`ranges
      ensures ranges == Unuse(old(ranges), kind, id) && Valid()
      ensures ok <==> Counted(old(ranges), kind, id) < |old(ranges)|
    {
      if TypeOf(id) != kind { return false; }
      var i := GetIDRangeById(id);
      if i == |ranges| { return false; }
      var used := ranges[i].used;
      if used == 0 { used := UNSET; }
      ranges := WithUsed(ranges, i, used - 1);
      ok := true;
    }
  }
}
