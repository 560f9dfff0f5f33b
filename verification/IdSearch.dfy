/**
 The search for an id that no resource has (common/reseditor.cpp): ids are drawn
 from the enumeration until one is not in the map, at most 65535 times.
*/
module IdSearch {

  import opened IdRange
  import opened Wrappers

  const MOST_DRAWS := 65535

  /** The cursor and the id found, or -1, after skipping at most n ids that are taken. */
  function Draw(rs: seq<Range>, t: nat, owner: Owner, c: Cursor, taken: set<int>, n: nat): (r: (Cursor, int))
    requires Points(rs, c)
    ensures Points(rs, r.0)
    decreases n
  {
    var (c', id) := NextId(rs, t, owner, c);
    if id == -1 || n == 0 then (c', -1)
    else if id !in taken then (c', id)
    else Draw(rs, t, owner, c', taken, n - 1)
  }

  /** The id at position k is the first of a list that is not taken. */
  predicate FirstFree(ids: seq<int>, taken: set<int>, k: nat) {
    k < |ids| && ids[k] !in taken && forall j :: 0 <= j < k ==> ids[j] in taken
  }

  predicate AllTaken(ids: seq<int>, taken: set<int>) {
    forall k :: 0 <= k < |ids| ==> ids[k] in taken
  }

  /**
   What is found is the first id still to come that is not taken; nothing is
   found exactly when all of them are, and then the enumeration starts over.
  */
  ghost predicate DrawsFirstFree(rs: seq<Range>, t: nat, c: Cursor, taken: set<int>, c': Cursor, id: int)
    requires InStep(rs, c)
  {
    var rest := Rest(rs, t, c);
    && InStep(rs, c')
    && (id == -1 <==> AllTaken(rest, taken))
    && (id == -1 ==> c' == START)
    && (id != -1 ==> exists k: nat :: FirstFree(rest, taken, k) && id == rest[k] && Rest(rs, t, c') == rest[k + 1..])
  }

  lemma FullIdIsNatural(t: nat, low: int)
    requires low >= 0
    ensures FullId(t, low) >= 0
  {
  }

  lemma IdsFromAreNatural(t: nat, from: int, max: int)
    requires from >= 0
    ensures forall id :: id in IdsFrom(t, from, max) ==> id >= 0
  {
    forall low: nat ensures FullId(t, low) >= 0 { FullIdIsNatural(t, low); }
  }

  lemma {:induction false} IdsAreNatural(rs: seq<Range>, t: nat, i: nat)
    requires i <= |rs|
    ensures forall id :: id in Ids(rs, t, i) ==> id >= 0
    decreases |rs| - i
  {
    if i == |rs| {
    } else {
      IdsAreNatural(rs, t, i + 1);
      IdsFromAreNatural(t, rs[i].min + 1, rs[i].max);
      assert Ids(rs, t, i) == IdsFrom(t, rs[i].min + 1, rs[i].max) + Ids(rs, t, i + 1);
      hide Ids, IdsFrom;
    }
  }

  lemma RestIsNatural(rs: seq<Range>, t: nat, c: Cursor)
    requires InStep(rs, c)
    ensures forall id :: id in Rest(rs, t, c) ==> id >= 0
  {
    hide Ids, IdsFrom;
    if c.cur == None {
      IdsAreNatural(rs, t, 0);
    } else {
      IdsAreNatural(rs, t, c.cur.value + 1);
      IdsFromAreNatural(t, c.next, rs[c.cur.value].max);
    }
  }

  lemma {:induction false} DrawFinds(rs: seq<Range>, t: nat, owner: Owner, c: Cursor, taken: set<int>, n: nat)
    requires OneOwner(rs, owner) && InStep(rs, c)
    requires forall i :: 0 <= i < |rs| ==> GoodRange(rs[i])
    requires |Rest(rs, t, c)| <= n
    requires StopsAtEnd(rs) || !AllTaken(Rest(rs, t, c), taken)
    ensures var (c', id) := Draw(rs, t, owner, c, taken, n);
      DrawsFirstFree(rs, t, c, taken, c', id)
    decreases n
  {
    hide Rest, NextId, StopsAtEnd;
    NextIdTakesNext(rs, t, owner, c);
    var rest := Rest(rs, t, c);
    var (c', id) := NextId(rs, t, owner, c);
    if rest == [] {
    } else {
      RestIsNatural(rs, t, c);
      assert rest[0] in rest;
      if id in taken {
        assert AllTaken(rest, taken) <==> AllTaken(rest[1..], taken) by {
          assert forall k :: 0 < k < |rest| ==> rest[k] == rest[1..][k - 1];
        }
        DrawFinds(rs, t, owner, c', taken, n - 1);
        var (last, found) := Draw(rs, t, owner, c', taken, n - 1);
        assert forall k :: 0 < k < |rest| ==> rest[k] == rest[1..][k - 1];
        if found != -1 {
          var k: nat :| FirstFree(rest[1..], taken, k) && found == rest[1..][k]
            && Rest(rs, t, last) == rest[1..][k + 1..];
          var j := k + 1;
          assert FirstFree(rest, taken, j) && found == rest[j];
          assert rest[1..][k + 1..] == rest[j + 1..];
        } else {
          assert forall k :: 0 < k < |rest| ==> rest[k] in taken;
        }
      } else {
        assert FirstFree(rest, taken, 0);
      }
    }
  }

  /** There are no more ids than draws. */
  lemma {:induction false} FewIds(rs: seq<Range>, t: nat, i: nat)
    requires Sorted(rs) && i <= |rs|
    ensures |Ids(rs, t, i)| <= MOST_DRAWS - (if i == 0 then 0 else rs[i - 1].max)
    decreases |rs| - i
  {
    if i == |rs| {
    } else {
      FewIds(rs, t, i + 1);
      if i > 0 { assert rs[i - 1].max <= rs[i].min; }
    }
  }

  /** When the search behind the last range goes on, the enumeration never starts over. */
  lemma {:induction false} NeverStartsOver(rs: seq<Range>, t: nat, owner: Owner, c: Cursor, taken: set<int>, n: nat)
    requires OneOwner(rs, owner) && InStep(rs, c) && forall i :: 0 <= i < |rs| ==> GoodRange(rs[i])
    requires !StopsAtEnd(rs)
    ensures Draw(rs, t, owner, c, taken, n).0 != START
    decreases n
  {
    hide NextId, Rest, StopsAtEnd;
    NextIdTakesNext(rs, t, owner, c);
    NextIdMoves(rs, t, owner, c);
    var (c', id) := NextId(rs, t, owner, c);
    if id == -1 || n == 0 || id !in taken {
    } else {
      NeverStartsOver(rs, t, owner, c', taken, n - 1);
    }
  }

  /**
   The search is long enough.  It finds the first id still to come that is not
   taken, or starts over when all of them are, exactly when there is such an id
   or the enumeration ends.
  */
  lemma NewIdIsFirstFree(rs: seq<Range>, t: nat, owner: Owner, c: Cursor, taken: set<int>)
    requires OneOwner(rs, owner) && InStep(rs, c) && Sorted(rs)
    ensures var (c', id) := Draw(rs, t, owner, c, taken, MOST_DRAWS);
      DrawsFirstFree(rs, t, c, taken, c', id) <==> StopsAtEnd(rs) || !AllTaken(Rest(rs, t, c), taken)
  {
    hide Draw, StopsAtEnd, Ids;
    if StopsAtEnd(rs) || !AllTaken(Rest(rs, t, c), taken) {
      if c.cur == None {
        FewIds(rs, t, 0);
      } else {
        FewIds(rs, t, c.cur.value + 1);
      }
      DrawFinds(rs, t, owner, c, taken, MOST_DRAWS);
    } else {
      NeverStartsOver(rs, t, owner, c, taken, MOST_DRAWS);
    }
  }

  /** Two searches in a row find a free id of the ranges whenever there is one, wherever the enumeration stands. */
  lemma SecondSearchFinds(rs: seq<Range>, t: nat, owner: Owner, c: Cursor, taken: set<int>)
    requires OneOwner(rs, owner) && StopsAtEnd(rs) && InStep(rs, c) && Sorted(rs)
    ensures var (c', id) := Draw(rs, t, owner, c, taken, MOST_DRAWS);
      var again := Draw(rs, t, owner, c', taken, MOST_DRAWS);
      id == -1 ==> (again.1 == -1 <==> AllTaken(Ids(rs, t, 0), taken))
  {
    hide Draw, Ids, StopsAtEnd;
    NewIdIsFirstFree(rs, t, owner, c, taken);
    var (c', id) := Draw(rs, t, owner, c, taken, MOST_DRAWS);
    NewIdIsFirstFree(rs, t, owner, c', taken);
  }

  /** Whatever the counters and the owners say, an id that is found is one of the ranges' and not taken. */
  lemma {:induction false} FoundIsFresh(rs: seq<Range>, t: nat, owner: Owner, c: Cursor, taken: set<int>, n: nat)
    requires Points(rs, c) && forall i :: 0 <= i < |rs| ==> GoodRange(rs[i])
    ensures var (c', id) := Draw(rs, t, owner, c, taken, n);
      id == -1 || (id !in taken && IsIdOf(rs, t, 0, id))
    decreases n
  {
    NextIdInRange(rs, t, owner, c);
    var (c', id) := NextId(rs, t, owner, c);
    if id == -1 || n == 0 || id !in taken {
    } else {
      FoundIsFresh(rs, t, owner, c', taken, n - 1);
    }
  }

  lemma NextIdInRange(rs: seq<Range>, t: nat, owner: Owner, c: Cursor)
    requires Points(rs, c) && forall i :: 0 <= i < |rs| ==> GoodRange(rs[i])
    ensures var (c', id) := NextId(rs, t, owner, c);
      id == -1 || IsIdOf(rs, t, 0, id)
  {
    var (c', id) := NextId(rs, t, owner, c);
    if id != -1 { assert rs[c'.cur.value].Contains(c'.next - 1); }
  }
}
