/**
 Property values of common/class-instance.cpp as values: what a class declares,
 what an instance overrides, and what one recorded property command does.
*/
module PropertyModel {

  import opened Wrappers

  /** Only the text type is treated apart (its field is never cleaned on request). */
  datatype Kind = Text | Plain

  type Fields = map<int, int>

  datatype Class = Class(types: map<int, Kind>, defaults: map<int, int>, super: Option<Class>)
  {
    function FieldType(id: int): Option<Kind> {
      if id in types then Some(types[id])
      else if super.Some? then super.value.FieldType(id)
      else None
    }

    function FieldDefault(id: int): int {
      if id in defaults then defaults[id]
      else if super.Some? then super.value.FieldDefault(id)
      else 0
    }

    predicate IsDefaultFieldExist(id: int) {
      id in defaults || (super.Some? && super.value.IsDefaultFieldExist(id))
    }

    /** What a command keeps of a value: nothing for a property without a type. */
    function ToMemo(id: int, value: int): int {
      if FieldType(id).Some? then value else 0
    }

    predicate EnableClean(id: int) {
      FieldType(id) == Some(Plain)
    }
  }

  // ------------------------------------------------- the chain of superclasses

  /** The class itself, its superclass, the superclass of that, and so on. */
  function Ancestor(cls: Class, k: nat): Option<Class> {
    if k == 0 then Some(cls)
    else if cls.super.None? then None
    else Ancestor(cls.super.value, k - 1)
  }

  /** The k-th class of the chain declares the type of the property. */
  predicate DeclaresAt(cls: Class, k: nat, id: int) {
    var c := Ancestor(cls, k); c.Some? && id in c.value.types
  }

  /** The k-th class of the chain has a default of the property. */
  predicate DefaultAt(cls: Class, k: nat, id: int) {
    var c := Ancestor(cls, k); c.Some? && id in c.value.defaults
  }

  /** Some class of the chain declares the property. */
  ghost predicate Declared(cls: Class, id: int) {
    exists k: nat :: DeclaresAt(cls, k, id)
  }

  /** The nearest class that declares the property gives its type. */
  lemma {:induction false} NearestType(cls: Class, k: nat, id: int)
    requires DeclaresAt(cls, k, id) && forall j: nat :: j < k ==> !DeclaresAt(cls, j, id)
    ensures cls.FieldType(id) == Some(Ancestor(cls, k).value.types[id])
    decreases k
  {
    if k == 0 {
    } else {
      assert !DeclaresAt(cls, 0, id);
      forall j: nat | j < k - 1 ensures !DeclaresAt(cls.super.value, j, id) {
        assert !DeclaresAt(cls, j + 1, id);
      }
      NearestType(cls.super.value, k - 1, id);
    }
  }

  /** A property has a type exactly when some class of the chain declares it. */
  lemma {:induction false} TypedExactlyWhen(cls: Class, id: int)
    ensures cls.FieldType(id).Some? <==> Declared(cls, id)
    decreases cls
  {
    if id in cls.types {
      assert DeclaresAt(cls, 0, id);
    } else if cls.super.Some? {
      TypedExactlyWhen(cls.super.value, id);
      if Declared(cls.super.value, id) {
        var k: nat :| DeclaresAt(cls.super.value, k, id);
        assert DeclaresAt(cls, k + 1, id);
      }
      if Declared(cls, id) {
        var k: nat :| DeclaresAt(cls, k, id);
        assert DeclaresAt(cls.super.value, k - 1, id);
      }
    }
  }

  /** The nearest class that has a default gives it. */
  lemma {:induction false} NearestDefault(cls: Class, k: nat, id: int)
    requires DefaultAt(cls, k, id) && forall j: nat :: j < k ==> !DefaultAt(cls, j, id)
    ensures cls.IsDefaultFieldExist(id) && cls.FieldDefault(id) == Ancestor(cls, k).value.defaults[id]
    decreases k
  {
    if k == 0 {
    } else {
      assert !DefaultAt(cls, 0, id);
      forall j: nat | j < k - 1 ensures !DefaultAt(cls.super.value, j, id) {
        assert !DefaultAt(cls, j + 1, id);
      }
      NearestDefault(cls.super.value, k - 1, id);
    }
  }

  /** Without a class of the chain that has one, the default is 0 and does not exist. */
  lemma {:induction false} NoDefault(cls: Class, id: int)
    requires forall k: nat :: !DefaultAt(cls, k, id)
    ensures !cls.IsDefaultFieldExist(id) && cls.FieldDefault(id) == 0
    decreases cls
  {
    assert !DefaultAt(cls, 0, id);
    if cls.super.None? {
    } else {
      forall k: nat ensures !DefaultAt(cls.super.value, k, id) {
        assert !DefaultAt(cls, k + 1, id);
      }
      NoDefault(cls.super.value, id);
    }
  }

  /** A default exists exactly when some class of the chain has one. */
  lemma {:induction false} DefaultedExactlyWhen(cls: Class, id: int)
    ensures cls.IsDefaultFieldExist(id) <==> exists k: nat :: DefaultAt(cls, k, id)
    decreases cls
  {
    if id in cls.defaults {
      assert DefaultAt(cls, 0, id);
    } else if cls.super.Some? {
      DefaultedExactlyWhen(cls.super.value, id);
      if k: nat :| DefaultAt(cls.super.value, k, id) {
        assert DefaultAt(cls, k + 1, id);
      }
      if k: nat :| DefaultAt(cls, k, id) {
        assert DefaultAt(cls.super.value, k - 1, id);
      }
    }
  }

  // ------------------------------------------------- one instance's fields

  function SetTo(cls: Class, locked: bool, f: Fields, id: int, v: int): Fields {
    if locked || cls.FieldType(id).None? then f else f[id := v]
  }

  function CleanTo(cls: Class, f: Fields, id: int, force: bool): Fields {
    if force || cls.EnableClean(id) then f - {id} else f
  }

  function FieldOr(cls: Class, f: Fields, id: int): int {
    if id in f then f[id] else cls.FieldDefault(id)
  }

  predicate FieldExists(cls: Class, f: Fields, id: int) {
    id in f || cls.IsDefaultFieldExist(id)
  }

  /** A field is set exactly when the instance is not locked and some class of the chain declares it. */
  lemma SetSets(cls: Class, locked: bool, f: Fields, id: int, v: int)
    ensures SetTo(cls, locked, f, id, v) == if !locked && Declared(cls, id) then f[id := v] else f
    ensures !locked && Declared(cls, id) ==> FieldOr(cls, SetTo(cls, locked, f, id, v), id) == v
  {
    TypedExactlyWhen(cls, id);
  }

  /**
   A field that the nearest declaring class makes a text is cleaned by force
   only, every other declared one always.
  */
  lemma CleanCleans(cls: Class, f: Fields, id: int, force: bool, k: nat)
    requires DeclaresAt(cls, k, id) && forall j: nat :: j < k ==> !DeclaresAt(cls, j, id)
    ensures var r := CleanTo(cls, f, id, force);
      if !force && Ancestor(cls, k).value.types[id] == Text then r == f
      else r == f - {id} && FieldOr(cls, r, id) == cls.FieldDefault(id)
  {
    NearestType(cls, k, id);
  }

  /** A command keeps the value of a property that some class declares, and 0 for any other. */
  lemma MemoIs(cls: Class, id: int, value: int)
    ensures cls.ToMemo(id, value) == if Declared(cls, id) then value else 0
  {
    TypedExactlyWhen(cls, id);
  }

  /** A field that no class declares is cleaned by force only. */
  lemma CleanUndeclared(cls: Class, f: Fields, id: int, force: bool)
    requires !Declared(cls, id)
    ensures CleanTo(cls, f, id, force) == if force then f - {id} else f
  {
    TypedExactlyWhen(cls, id);
  }

  // ------------------------------------------------------ recorded commands

  /** What a command remembers: the property was not set, or was set to a value. */
  datatype Memo = Unset | Saved(value: int)

  function Current(f: Fields, id: int): Memo {
    if id in f then Saved(f[id]) else Unset
  }

  function Put(f: Fields, id: int, m: Memo): Fields {
    match m
    case Unset => f - {id}
    case Saved(v) => f[id := v]
  }

  function ExecuteFields(cls: Class, locked: bool, f: Fields, id: int, m: Memo): Fields {
    if cls.FieldType(id).None? then f
    else match m
      case Unset => CleanTo(cls, f, id, false)
      case Saved(v) => SetTo(cls, locked, f, id, v)
  }

  function ExecuteMemo(cls: Class, f: Fields, id: int, m: Memo): Memo {
    if cls.FieldType(id).None? then m else Current(f, id)
  }

  /** Whether the branch taken by execute really installs the memo. */
  predicate Installs(cls: Class, locked: bool, id: int, m: Memo) {
    match m
    case Unset => cls.FieldType(id) == Some(Plain)
    case Saved(_) => cls.FieldType(id).Some? && !locked
  }

  /** A command swaps the remembered and the live state exactly when it can install what it remembers, or both agree. */
  lemma ExecuteSwaps(cls: Class, locked: bool, f: Fields, id: int, m: Memo)
    ensures (&& ExecuteFields(cls, locked, f, id, m) == Put(f, id, m)
             && ExecuteMemo(cls, f, id, m) == Current(f, id))
      <==> Installs(cls, locked, id, m) || m == Current(f, id)
  {
    if m == Current(f, id) {
      assert Put(f, id, m) == f;
    } else {
      assert Current(Put(f, id, m), id) == m;
    }
  }

  lemma PutBack(f: Fields, id: int, m: Memo)
    ensures Put(Put(f, id, m), id, Current(f, id)) == f
    ensures Current(Put(f, id, m), id) == m
  {
  }
}
