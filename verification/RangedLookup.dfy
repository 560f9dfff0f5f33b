/**
 Looking up all properties of a range of ids at once (common/class-instance.cpp):
 the values of the topmost class first, each class and then the instance
 overwriting what was there.  A map is walked by ascending keys.
*/
module RangedLookup {

  import opened PropertyModel

  function Ranged(m: Fields, begin: int, end: int): Fields {
    map id | id in m && begin <= id <= end :: m[id]
  }

  lemma {:induction false} LeastExists(s: set<int>)
    ensures s == {} || exists k :: k in s && forall j :: j in s ==> k <= j
  {
    if forall x :: x !in s {
      assert s == {};
    } else {
      var x :| x in s;
      var rest := s - {x};
      LeastExists(rest);
      if rest == {} {
        assert s == {x};
      } else {
        var k :| k in rest && forall j :: j in rest ==> k <= j;
        var least := if x < k then x else k;
        assert forall j :: j in s ==> j == x || j in rest;
        assert least in s && forall j :: j in s ==> least <= j;
      }
    }
  }

  /** The entries of the range that a walk has passed. */
  ghost function Passed(m: Fields, begin: int, end: int, ahead: set<int>): Fields {
    map id | id in m && begin <= id <= end && id !in ahead :: m[id]
  }

  /** The walk from the first key of the range until a key behind it. */
  method CopyRange(m: Fields, begin: int, end: int, values: Fields) returns (r: Fields)
    ensures r == values + Ranged(m, begin, end)
  {
    r := values;
    var ahead := set k | k in m && begin <= k;
    assert Passed(m, begin, end, ahead) == map[];
    while ahead != {}
      invariant ahead <= m.Keys && forall j :: j in ahead ==> begin <= j
      invariant r == values + Passed(m, begin, end, ahead)
      decreases |ahead|
    {
      LeastExists(ahead);
      var k :| k in ahead && forall j :: j in ahead ==> k <= j;
      if k > end { break; }
      assert Passed(m, begin, end, ahead - {k}) == Passed(m, begin, end, ahead)[k := m[k]];
      r := r[k := m[k]];
      ahead := ahead - {k};
    }
    assert Passed(m, begin, end, ahead) == Ranged(m, begin, end);
  }

  /** getRangedDefaultValue */
  function RangedDefaults(cls: Class, begin: int, end: int, values: Fields): Fields {
    if begin > end then values
    else (if cls.super.Some? then RangedDefaults(cls.super.value, begin, end, values) else values)
         + Ranged(cls.defaults, begin, end)
  }

  method GetRangedDefaultValue(cls: Class, begin: int, end: int, values: Fields) returns (r: Fields)
    ensures r == RangedDefaults(cls, begin, end, values)
    decreases cls
  {
    if begin > end { return values; }
    r := values;
    if cls.super.Some? { r := GetRangedDefaultValue(cls.super.value, begin, end, r); }
    r := CopyRange(cls.defaults, begin, end, r);
  }

  /** getRangedFields */
  function RangedFields(cls: Class, f: Fields, begin: int, end: int, values: Fields): Fields {
    if begin > end then values else RangedDefaults(cls, begin, end, values) + Ranged(f, begin, end)
  }

  method GetRangedFields(cls: Class, f: Fields, begin: int, end: int, values: Fields) returns (r: Fields)
    ensures r == RangedFields(cls, f, begin, end, values)
  {
    if begin > end { return values; }
    r := GetRangedDefaultValue(cls, begin, end, values);
    r := CopyRange(f, begin, end, r);
  }

  lemma {:induction false} DefaultsArePointwise(cls: Class, begin: int, end: int, values: Fields, id: int)
    ensures var r := RangedDefaults(cls, begin, end, values);
      if begin <= id <= end && cls.IsDefaultFieldExist(id) then id in r && r[id] == cls.FieldDefault(id)
      else (id in r <==> id in values) && (id in r ==> r[id] == values[id])
    decreases cls
  {
    if end < begin || cls.super.None? {
    } else {
      DefaultsArePointwise(cls.super.value, begin, end, values, id);
    }
  }

  /**
   For an id of the range the result has the value that the lookup of the single
   property gives, exactly when the property exists; every other id is as before.
  */
  lemma RangedIsPointwise(cls: Class, f: Fields, begin: int, end: int, values: Fields, id: int)
    ensures var r := RangedFields(cls, f, begin, end, values);
      if begin <= id <= end && FieldExists(cls, f, id) then id in r && r[id] == FieldOr(cls, f, id)
      else (id in r <==> id in values) && (id in r ==> r[id] == values[id])
  {
    DefaultsArePointwise(cls, begin, end, values, id);
  }
}
