/**
 The resources of an editor, kept under their ids and under their names
 (include/reseditor.h, common/reseditor.cpp), with one range manager as in the
 image editor (imgeditor/imgeditor.h).
*/
module ResourceEditor {

  import opened Common
  import opened IdRange
  import opened IdCounters
  import opened IdSearch
  import opened IdManager
  import opened Wrappers

  class Resource {
    var name: string
    var id: int
    var sourceId: int
    var useRef: nat

    constructor (name: Option<string>, id: int, sourceId: int)
      ensures this.name == (if name == None then "" else name.value)
      ensures this.id == id && this.sourceId == sourceId && useRef == 0
    {
      this.name := if name == None then "" else name.value;
      this.id := id;
      this.sourceId := sourceId;
      useRef := 0;
    }
  }

  predicate IsAlpha(c: char) { 'a' <= c <= 'z' || 'A' <= c <= 'Z' }

  predicate IsDigit(c: char) { '0' <= c <= '9' }

  /** A letter, then letters, digits and underscores. */
  predicate ValidIDName(name: string) {
    && name != "" && IsAlpha(name[0])
    && forall i :: 1 <= i < |name| ==> name[i] == '_' || IsDigit(name[i]) || IsAlpha(name[i])
  }

  const UPPER := {
    'A', 'B', 'C', 'D', 'E', 'F', 'G', 'H', 'I', 'J', 'K', 'L', 'M', 'N', 'O', 'P', 'Q', 'R', 'S',
    'T', 'U', 'V', 'W', 'X', 'Y', 'Z'}

  const LOWER := {
    'a', 'b', 'c', 'd', 'e', 'f', 'g', 'h', 'i', 'j', 'k', 'l', 'm', 'n', 'o', 'p', 'q', 'r', 's',
    't', 'u', 'v', 'w', 'x', 'y', 'z'}

  const DIGITS := {'0', '1', '2', '3', '4', '5', '6', '7', '8', '9'}

  lemma UpperAre(c: char)
    ensures 'A' <= c <= 'Z' <==> c in UPPER
  {
  }

  lemma LowerAre(c: char)
    ensures 'a' <= c <= 'z' <==> c in LOWER
  {
  }

  lemma DigitsAre(c: char)
    ensures IsDigit(c) <==> c in DIGITS
  {
  }

  /** A name as the naming rule spells it out. */
  predicate SpelledRight(name: string) {
    && name != "" && (name[0] in UPPER || name[0] in LOWER)
    && forall i :: 1 <= i < |name| ==> name[i] in UPPER || name[i] in LOWER || name[i] in DIGITS || name[i] == '_'
  }

  lemma ValidExactlyWhen(name: string)
    ensures ValidIDName(name) <==> SpelledRight(name)
  {
    hide UPPER, LOWER, DIGITS;
    forall i | 0 <= i < |name|
      ensures IsAlpha(name[i]) <==> name[i] in UPPER || name[i] in LOWER
      ensures IsDigit(name[i]) <==> name[i] in DIGITS
    {
      UpperAre(name[i]);
      LowerAre(name[i]);
      DigitsAre(name[i]);
    }
  }

  /** Accepted names stay accepted when they are joined by an underscore, or a digit is put behind. */
  lemma NamesJoin(a: string, b: string, d: char)
    requires ValidIDName(a) && ValidIDName(b) && '0' <= d <= '9'
    ensures ValidIDName(a + "_" + b) && ValidIDName(a + [d])
  {
  }

  /** No name begins with an underscore or a digit, and no other character is in one. */
  lemma NamesRefused(name: string, i: nat)
    requires i < |name|
    requires if i == 0 then name[i] == '_' || '0' <= name[i] <= '9'
             else name[i] == '-' || name[i] == ' ' || name[i] == '.' || name[i] > 'z'
    ensures !ValidIDName(name)
  {
  }

  /** The loop over the characters. */
  method CheckIDName(name: string) returns (ok: bool)
    ensures ok <==> ValidIDName(name)
  {
    if name == "" || !IsAlpha(name[0]) { return false; }
    var i := 1;
    while i < |name|
      invariant 1 <= i <= |name|
      invariant forall k :: 1 <= k < i ==> name[k] == '_' || IsDigit(name[k]) || IsAlpha(name[k])
    {
      if !(name[i] == '_' || IsDigit(name[i]) || IsAlpha(name[i])) { return false; }
      i := i + 1;
    }
    ok := true;
  }

  lemma OneMoreId(ids: set<int>, id: int)
    requires AreIds(ids) && IsId(id)
    ensures AreIds(ids + {id})
  {
  }

  datatype Edit =
    | Create(kind: nat, name: Option<string>, given: int, sourceId: int)
    | Rename(id: int, newName: string)
    | Renumber(oldId: int, newId: int)
    | Remove(id: int)

  class ResEditor {
    const manager: IDRangeManager
    var reses: map<int, Resource>
    var namedRes: map<string, Resource>
    var idChanged: bool

    constructor (manager: IDRangeManager)
      requires manager.Valid()
      ensures this.manager == manager && reses == map[] && namedRes == map[] && !idChanged
    {
      this.manager := manager;
      reses := map[];
      namedRes := map[];
      idChanged := false;
    }

    ghost function Resources(): set<Resource>
      reads this
    {
      reses.Values + namedRes.Values
    }

    /** The two maps hold the same resources, each under its own id and, if it has one, its own name. */
    ghost predicate Consistent()
      reads this, Resources()
    {
      && (forall id :: id in reses ==> reses[id].id == id)
      && (forall id :: id in reses && reses[id].name != "" ==>
            reses[id].name in namedRes && namedRes[reses[id].name] == reses[id])
      && (forall name :: name in namedRes ==>
            && name != "" && namedRes[name].name == name
            && namedRes[name].id in reses && reses[namedRes[name].id] == namedRes[name])
    }

    /** Every use counter of the manager agrees with the recount. */
    ghost predicate CountsAgree()
      reads this, manager
    {
      AllAgree(manager.ranges, manager.kind, reses.Keys)
    }

    ghost predicate Valid()
      reads this, manager, Resources()
    {
      manager.Valid() && AreIds(reses.Keys) && Consistent() && CountsAgree()
    }

    predicate IsValidName(name: string)
      reads this
    {
      name !in namedRes && ValidIDName(name)
    }

    method CheckName(name: string) returns (ok: bool)
      ensures ok <==> IsValidName(name)
    {
      if name in namedRes { return false; }
      ok := CheckIDName(name);
    }

    function IdToName(id: int): Option<string>
      reads this, if id in reses then {reses[id]} else {}
    {
      if id in reses then Some(reses[id].name) else None
    }

    function NameToId(name: string): int
      reads this, if name in namedRes then {namedRes[name]} else {}
    {
      if name in namedRes then namedRes[name].id else -1
    }

    /** Looking up a name and looking up an id undo each other. */
    lemma LookupsAgree(id: int, name: string)
      requires Consistent() && name != "" && id != -1
      ensures NameToId(name) == id <==> IdToName(id) == Some(name)
      ensures IdToName(id).Some? <==> id in reses
    {
    }

    /** An id has at most one name and a name at most one id. */
    lemma NamesAreUnique(id: int, id': int)
      requires Consistent() && id in reses && id' in reses && reses[id].name != ""
      ensures reses[id].name == reses[id'].name ==> id == id'
    {
    }

    /** newResId with the offer of further ranges declined. */
    method NewResId(kind: nat, owner: Owner) returns (id: int)
      requires manager.Valid()
      modifies manager`curIdRange, manager`nextId
      ensures manager.Valid()
      ensures (manager.At(), id) ==
        if kind != manager.kind then (old(manager.At()), -1)
        else Draw(manager.ranges, kind, owner, old(manager.At()), reses.Keys, MOST_DRAWS)
      ensures id == -1 || (id !in reses && IsId(id) && TypeOf(id) == kind)
    {
      hide IdRange.NextId, FullId;
      if kind != manager.kind { return -1; }
      FoundIsFresh(manager.ranges, kind, owner, manager.At(), reses.Keys, MOST_DRAWS);
      var i := 0;
      id := manager.NextId(owner);
      while id != -1 && i < MOST_DRAWS
        invariant manager.Valid() && i <= MOST_DRAWS
        invariant Draw(manager.ranges, kind, owner, old(manager.At()), reses.Keys, MOST_DRAWS) ==
          if id == -1 || i == MOST_DRAWS then (manager.At(), -1)
          else if id !in reses then (manager.At(), id)
          else Draw(manager.ranges, kind, owner, manager.At(), reses.Keys, MOST_DRAWS - i - 1)
        decreases MOST_DRAWS - i
      {
        if id !in reses {
          FoundHasKind(manager.ranges, kind, id);
          return;
        }
        id := manager.NextId(owner);
        i := i + 1;
      }
      id := -1;
    }

    /** What has to hold so that a new resource keeps the two maps consistent. */
    predicate Fits(id: int, name: Option<string>)
      reads this, Resources()
    {
      && (id in reses && reses[id].name != "" ==> name == Some(reses[id].name))
      && (name.Some? ==> name.value != "" && (name.value in namedRes ==> namedRes[name.value].id == id))
    }

    /** An id given by the caller is taken as it is, without looking whether it or the name is in use. */
    method CreateRes(kind: nat, name: Option<string>, given: int, sourceId: int, owner: Owner) returns (id: int)
      requires Valid() && given < 0x8000_0000
      modifies this, manager
      ensures given > 0 && TypeOf(given) == kind ==> id == given
      ensures !(given > 0 && TypeOf(given) == kind) ==>
        (manager.At(), id) ==
          if kind != manager.kind || (name.Some? && !old(IsValidName(name.value))) then (old(manager.At()), -1)
          else Draw(old(manager.ranges), kind, owner, old(manager.At()), old(reses.Keys), MOST_DRAWS)
      ensures !(given > 0 && TypeOf(given) == kind) && name.Some? && id != -1 ==>
        name.value !in old(namedRes) && SpelledRight(name.value)
      ensures id == -1 ==> reses == old(reses) && namedRes == old(namedRes) && idChanged == old(idChanged)
                           && manager.ranges == old(manager.ranges) && Valid()
      ensures id != -1 ==>
        && id in reses && fresh(reses[id]) && reses == old(reses)[id := reses[id]]
        && namedRes == (if name.Some? then old(namedRes)[name.value := reses[id]] else old(namedRes))
        && reses[id].id == id && reses[id].name == (if name.Some? then name.value else "")
        && reses[id].sourceId == sourceId && reses[id].useRef == 0 && idChanged
        && manager.ranges == Use(old(manager.ranges), manager.kind, id)
      ensures manager.Valid() && AreIds(reses.Keys)
      ensures id != -1 ==> (Consistent() <==> old(Fits(id, name)))
      ensures id != -1 ==>
        (CountsAgree() <==>
           id !in old(reses) || Counted(old(manager.ranges), manager.kind, id) == |old(manager.ranges)|)
      ensures id != -1 && !(given > 0 && TypeOf(given) == kind) ==> Valid()
    {
      hide AllAgree, Use, Counted, Draw, RangeOf, Sorted, AreIds;
      if name.Some? { ValidExactlyWhen(name.value); }
      hide SpelledRight;
      id := given;
      if id <= 0 || TypeOf(id) != kind {
        if name.Some? {
          var ok := CheckName(name.value);
          if !ok { return -1; }
        }
        id := NewResId(kind, owner);
      }
      if id == -1 { return; }
      EnterAndCount(name, id, sourceId);
    }

    /** The part of createRes that follows when there is an id. */
    method EnterAndCount(name: Option<string>, id: int, sourceId: int)
      requires Valid() && IsId(id)
      modifies this, manager`ranges
      ensures id in reses && fresh(reses[id]) && reses == old(reses)[id := reses[id]]
      ensures namedRes == if name.Some? then old(namedRes)[name.value := reses[id]] else old(namedRes)
      ensures reses[id].id == id && reses[id].name == if name.Some? then name.value else ""
      ensures reses[id].sourceId == sourceId && reses[id].useRef == 0 && idChanged
      ensures manager.Valid() && AreIds(reses.Keys) && manager.ranges == Use(old(manager.ranges), manager.kind, id)
      ensures Consistent() <==> old(Fits(id, name))
      ensures CountsAgree() <==>
        id !in old(reses) || Counted(old(manager.ranges), manager.kind, id) == |old(manager.ranges)|
    {
      hide AllAgree, Use, Counted, RangeOf, Sorted;
      EnterCounts(id);
      OneMoreId(reses.Keys, id);
      hide AreIds;
      Enter(name, id, sourceId);
      assert reses.Keys == old(reses.Keys) + {id};
      var _ := manager.UseId(id);
    }

    /** The part of createRes that enters the resource into the two maps. */
    method Enter(name: Option<string>, id: int, sourceId: int)
      requires Consistent()
      modifies this`reses, this`namedRes, this`idChanged
      ensures id in reses && fresh(reses[id]) && reses == old(reses)[id := reses[id]]
      ensures namedRes == if name.Some? then old(namedRes)[name.value := reses[id]] else old(namedRes)
      ensures reses[id].id == id && reses[id].name == if name.Some? then name.value else ""
      ensures reses[id].sourceId == sourceId && reses[id].useRef == 0 && idChanged
      ensures Consistent() <==> old(Fits(id, name))
    {
      var res := new Resource(name, id, sourceId);
      reses := reses[id := res];
      if name.Some? { namedRes := namedRes[res.name := res]; }
      idChanged := true;
      if !old(Fits(id, name)) {
        if name == Some("") {
          assert "" in namedRes;
        } else if name.Some? && name.value in old(namedRes) && old(namedRes[name.value].id) != id {
          var other := old(namedRes[name.value]);
          assert reses[other.id] == other && namedRes[other.name] == res;
        } else {
          var before := old(reses[id]);
          assert namedRes[before.name] == before && reses[before.id] == res;
        }
      }
    }

    lemma EnterCounts(id: int)
      requires Valid() && IsId(id)
      ensures AllAgree(Use(manager.ranges, manager.kind, id), manager.kind, reses.Keys + {id})
        <==> id !in reses || Counted(manager.ranges, manager.kind, id) == |manager.ranges|
    {
      if id in reses {
        UseTwiceDrifts(manager.ranges, manager.kind, reses.Keys, id);
        assert reses.Keys + {id} == reses.Keys;
      } else {
        UseAgrees(manager.ranges, manager.kind, reses.Keys, id);
      }
    }

    method SetResName(id: int, name: string) returns (r: int)
      requires Valid()
      modifies this`namedRes, this`idChanged, if id in reses then {reses[id]} else {}
      ensures Valid()
      ensures r == if id in reses && name != old(reses[id].name) && old(IsValidName(name)) then id else -1
      ensures r != -1 <==>
        && id in reses && name != old(reses[id].name) && name !in old(namedRes) && SpelledRight(name)
      ensures r == -1 ==>
        && namedRes == old(namedRes) && idChanged == old(idChanged)
        && (id in reses ==> unchanged(reses[id]))
      ensures r != -1 ==>
        && reses[id].name == name && idChanged
        && reses[id].sourceId == old(reses[id].sourceId) && reses[id].useRef == old(reses[id].useRef)
        && namedRes == (old(namedRes) - {old(reses[id].name)})[name := reses[id]]
    {
      r := -1;
      ValidExactlyWhen(name);
      hide SpelledRight;
      if name == "" { return; }
      if id in reses {
        var resource := reses[id];
        var ok := CheckName(name);
        if resource.name != name && ok {
          namedRes := namedRes - {resource.name};
          resource.name := name;
          namedRes := namedRes[resource.name := resource];
          idChanged := true;
          r := id;
        }
      }
    }

    /** The counters are moved before it is known whether there is such a resource. */
    method SetResId(oldId: int, newId: int) returns (ok: bool)
      requires Valid() && IsId(oldId) && IsId(newId)
      modifies this`reses, this`idChanged, manager`ranges, if oldId in reses then {reses[oldId]} else {}
      ensures manager.Valid() && AreIds(reses.Keys) && Consistent()
      ensures OnlyCounts(old(manager.ranges), manager.ranges)
      ensures ok <==> oldId in old(reses) && newId !in old(reses) && TypeOf(oldId) == TypeOf(newId)
      ensures ok ==>
        && reses == (old(reses) - {oldId})[newId := old(reses[oldId])] && reses[newId].id == newId && idChanged
        && reses[newId].name == old(reses[oldId].name) && reses[newId].sourceId == old(reses[oldId].sourceId)
        && reses[newId].useRef == old(reses[oldId].useRef)
      ensures !ok ==> reses == old(reses) && idChanged == old(idChanged) && (oldId in reses ==> unchanged(reses[oldId]))
      ensures CountsAgree() <==>
        || ok || oldId == newId || TypeOf(oldId) != TypeOf(newId) || newId in old(reses)
        || Counted(old(manager.ranges), manager.kind, oldId) == Counted(old(manager.ranges), manager.kind, newId)
    {
      ok := false;
      hide AllAgree, Use, Unuse, Counted;
      if oldId == newId || TypeOf(oldId) != TypeOf(newId) || newId in reses { return; }
      MoveCounts(oldId, newId);
      hide Sorted;
      var _ := manager.UseId(newId);
      var _ := manager.UnuseId(oldId);
      if oldId in reses {
        MoveRes(oldId, newId);
        ok := true;
      }
    }

    /** The resource goes from one id to a free one. */
    method MoveRes(oldId: int, newId: int)
      requires Consistent() && oldId in reses && newId !in reses && AreIds(reses.Keys) && IsId(newId)
      modifies this`reses, this`idChanged, reses[oldId]
      ensures Consistent() && AreIds(reses.Keys) && idChanged
      ensures reses == (old(reses) - {oldId})[newId := old(reses[oldId])] && reses[newId].id == newId
      ensures reses.Keys == old(reses.Keys) + {newId} - {oldId}
      ensures reses[newId].name == old(reses[oldId].name) && reses[newId].sourceId == old(reses[oldId].sourceId)
      ensures reses[newId].useRef == old(reses[oldId].useRef)
    {
      var resource := reses[oldId];
      resource.id := newId;
      reses := reses - {oldId};
      reses := reses[newId := resource];
      idChanged := true;
    }

    lemma MoveCounts(oldId: int, newId: int)
      requires Valid() && IsId(oldId) && IsId(newId) && newId !in reses && oldId != newId
      ensures var moved := Unuse(Use(manager.ranges, manager.kind, newId), manager.kind, oldId);
        && (oldId in reses ==> AllAgree(moved, manager.kind, reses.Keys + {newId} - {oldId}))
        && (oldId !in reses ==> (AllAgree(moved, manager.kind, reses.Keys) <==>
              Counted(manager.ranges, manager.kind, oldId) == Counted(manager.ranges, manager.kind, newId)))
    {
      if oldId in reses {
        UseAgrees(manager.ranges, manager.kind, reses.Keys, newId);
        UnuseAgrees(Use(manager.ranges, manager.kind, newId), manager.kind, reses.Keys + {newId}, oldId);
      } else {
        MoveAbsentDrifts(manager.ranges, manager.kind, reses.Keys, oldId, newId);
      }
    }

    method RemoveRes(id: int) returns (ok: bool)
      requires Valid()
      modifies this, manager`ranges
      ensures Valid() && OnlyCounts(old(manager.ranges), manager.ranges)
      ensures ok <==> id in old(reses) && old(reses[id].useRef) == 0
      ensures ok ==> reses == old(reses) - {id} && namedRes == old(namedRes) - {old(reses[id].name)} && idChanged
      ensures !ok ==> reses == old(reses) && namedRes == old(namedRes) && idChanged == old(idChanged)
                      && manager.ranges == old(manager.ranges)
    {
      hide AllAgree, Unuse, RangeOf, Sorted;
      if id !in reses || reses[id].useRef > 0 { return false; }
      var resource := reses[id];
      UnuseAgrees(manager.ranges, manager.kind, reses.Keys, id);
      reses := reses - {id};
      assert reses.Keys == old(reses.Keys) - {id};
      if |resource.name| > 0 { namedRes := namedRes - {resource.name}; }
      var _ := manager.UnuseId(id);
      idChanged := true;
      ok := true;
    }

    /**
     An edit whose outcome keeps to the maps and the counters: a given id is new
     and its name fits, a renumbered id is in use.
    */
    predicate Proper(edit: Edit)
      reads this, Resources()
    {
      match edit
      case Create(kind, name, given, _) =>
        given < 0x8000_0000 && (given > 0 && TypeOf(given) == kind ==> given !in reses && Fits(given, name))
      case Rename(_, _) => true
      case Renumber(oldId, newId) => IsId(oldId) && IsId(newId) && oldId in reses
      case Remove(_) => true
    }

    /** One edit, whichever it is. */
    method Perform(edit: Edit, owner: Owner)
      requires Valid() && Proper(edit)
      modifies this, manager, Resources()
      ensures Valid() && fresh(Resources() - old(Resources()))
    {
      hide SpelledRight, ValidIDName, AllAgree, Sorted, AreIds, Use, Counted;
      match edit
      case Create(kind, name, given, sourceId) => var _ := CreateRes(kind, name, given, sourceId, owner);
      case Rename(id, name) => var _ := SetResName(id, name);
      case Renumber(oldId, newId) => var _ := SetResId(oldId, newId);
      case Remove(id) => var _ := RemoveRes(id);
    }

    /**
     A run of edits up to the first that is not proper: all along it the maps
     are consistent and the counters agree.
    */
    method Run(edits: seq<Edit>, owner: Owner) returns (done: nat)
      requires Valid()
      modifies this, manager, Resources()
      ensures Valid() && done <= |edits| && (done < |edits| ==> !Proper(edits[done]))
    {
      done := 0;
      while done < |edits| && Proper(edits[done])
        invariant done <= |edits| && Valid()
        invariant fresh(Resources() - old(Resources()))
      {
        Perform(edits[done], owner);
        done := done + 1;
      }
    }

    /** Ranges that are new are counted from the resources; afterwards every counter agrees. */
    method UpdateIDRangeManager()
      requires manager.Valid() && AreIds(reses.Keys)
      modifies manager`ranges
      ensures manager.Valid() && |manager.ranges| == |old(manager.ranges)|
      ensures forall k :: 0 <= k < |manager.ranges| ==>
        manager.ranges[k] ==
          if old(manager.ranges)[k].isNew
          then old(manager.ranges)[k].(used := Recount(reses.Keys, manager.kind, old(manager.ranges)[k]),
            isNew := false)
          else old(manager.ranges)[k]
      ensures (forall k :: 0 <= k < |old(manager.ranges)| && !old(manager.ranges)[k].isNew ==>
                 Agrees(old(manager.ranges)[k].used, Recount(reses.Keys, manager.kind, old(manager.ranges)[k]))) ==>
                   CountsAgree()
    {
      var k := 0;
      while k < |manager.ranges|
        invariant k <= |manager.ranges| == |old(manager.ranges)| && manager.Valid()
        invariant forall j :: 0 <= j < |manager.ranges| ==>
          manager.ranges[j] ==
            if j < k && old(manager.ranges)[j].isNew
            then old(manager.ranges)[j].(used := Recount(reses.Keys, manager.kind, old(manager.ranges)[j]),
              isNew := false)
            else old(manager.ranges)[j]
      {
        var r := manager.ranges[k];
        if r.isNew {
          var count := CountWindow(reses.Keys, manager.kind, r);
          manager.ranges := manager.ranges[k := r.(used := count, isNew := false)];
        }
        k := k + 1;
      }
      forall j | 0 <= j < |manager.ranges|
        ensures Recount(reses.Keys, manager.kind, manager.ranges[j]) ==
          Recount(reses.Keys, manager.kind, old(manager.ranges)[j])
      {
        assert Window(reses.Keys, manager.kind, manager.ranges[j]) ==
          Window(reses.Keys, manager.kind, old(manager.ranges)[j]);
      }
    }
  }

  lemma HasMember(s: set<int>)
    ensures s == {} || exists x :: x in s
  {
    if forall x :: x !in s { assert s == {}; }
  }

  /** The walk from the first key of a range to the last. */
  method CountWindow(ids: set<int>, kind: nat, r: Range) returns (count: nat)
    requires GoodRange(r)
    ensures count == Recount(ids, kind, r) <= UNSET
  {
    var ahead: set<int> := Window(ids, kind, r);
    BoundedCount(ahead, FullId(kind, r.min + 1), FullId(kind, r.max));
    count := 0;
    while ahead != {}
      invariant count + |ahead| == Recount(ids, kind, r)
      decreases |ahead|
    {
      HasMember(ahead);
      var id :| id in ahead;
      ahead := ahead - {id};
      count := count + 1;
    }
  }

  lemma FoundHasKind(rs: seq<Range>, t: nat, id: int)
    requires t < 0x8000 && IsIdOf(rs, t, 0, id) && forall i :: 0 <= i < |rs| ==> GoodRange(rs[i])
    ensures IsId(id) && TypeOf(id) == t
  {
  }
}
