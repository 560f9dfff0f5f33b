/**
 A resource package as a whole: header, type table and sections, how they are
 written (mainframe/mainframe.cpp) and how a string is found again
 (tools/res2c/resource.c, tools/res2c/resource.h).
*/
module PackageWriter {

  import opened Common
  import opened PackageBytes
  import opened PackageStrings
  import opened Wrappers

  const MAGIC := 0x4d475250
  const HEADER := 48
  const TYPE_ITEM := 12
  const NCSRT_STRING := 1
  const NCSRT_TEXT := 2

  /** What an editor contributes: the bits of its type and the bytes of its section. */
  datatype Part = Part(kind: nat, body: bytes)

  /** The descriptive fields of the header. */
  datatype Labels = Labels(version: bytes, format: bytes, encoding: bytes, vendor: bytes)
  {
    predicate Valid() { |version| == 4 && |format| == 4 && |encoding| == 16 && |vendor| == 16 }
  }

  function Head(labels: Labels, n: nat, e: Endian): (r: bytes)
    requires labels.Valid()
    ensures |r| == HEADER
  {
    Saved32(MAGIC, e) + labels.version + labels.format + labels.encoding + labels.vendor + Saved32(n, e)
  }

  function Bodies(ps: seq<Part>, k: nat): bytes
    requires k <= |ps|
  {
    if k == 0 then [] else Bodies(ps, k - 1) + ps[k - 1].body
  }

  /** Where section k begins in the file. */
  function Start(ps: seq<Part>, k: nat): nat
    requires k <= |ps|
  {
    HEADER + |ps| * TYPE_ITEM + |Bodies(ps, k)|
  }

  function TypeItem(kind: nat, start: nat, e: Endian): (r: bytes)
    ensures |r| == TYPE_ITEM
  {
    Item(kind, start, e)
  }

  function Table(ps: seq<Part>, k: nat, e: Endian): (r: bytes)
    requires k <= |ps|
    ensures |r| == k * TYPE_ITEM
  {
    if k == 0 then [] else Table(ps, k - 1, e) + TypeItem(ps[k - 1].kind, Start(ps, k - 1), e)
  }

  /** The file when the first t type items are patched and the first k sections are written. */
  function Partial(labels: Labels, ps: seq<Part>, t: nat, k: nat, e: Endian): bytes
    requires labels.Valid() && t <= |ps| && k <= |ps|
  {
    Head(labels, |ps|, e) + Table(ps, t, e) + Zeros((|ps| - t) * TYPE_ITEM) + Bodies(ps, k)
  }

  function Package(labels: Labels, ps: seq<Part>, e: Endian): bytes
    requires labels.Valid()
  {
    Head(labels, |ps|, e) + Table(ps, |ps|, e) + Bodies(ps, |ps|)
  }

  // ------------------------------------------------------------------- writing

  method SaveTypeItem(bin: BinStream, idx: nat, kind: nat)
    requires HEADER + (idx + 1) * TYPE_ITEM <= |bin.storage.data|
    modifies bin.storage
    ensures bin.storage.Valid() && bin.storage.pos == |bin.storage.data|
    ensures bin.storage.data
      == Put(old(bin.storage.data), HEADER + idx * TYPE_ITEM, TypeItem(kind, |old(bin.storage.data)|, bin.endian))
  {
    hide Saved32, Put;
    ghost var was := bin.storage.data;
    bin.storage.SeekEnd();
    var size := bin.storage.pos;
    var typePos := HEADER + idx * TYPE_ITEM;
    bin.storage.SeekBegin(typePos);
    bin.Save32(kind);
    bin.Save32(0);
    bin.Save32(size);
    PutThrice(was, typePos, Saved32(kind, bin.endian), Saved32(0, bin.endian), Saved32(size, bin.endian));
    bin.storage.SeekEnd();
  }

  lemma PutThrice(data: bytes, pos: nat, a: bytes, b: bytes, c: bytes)
    requires pos + |a| + |b| + |c| <= |data|
    ensures Put(Put(Put(data, pos, a), pos + |a|, b), pos + |a| + |b|, c) == Put(data, pos, a + b + c)
  {
    PutTwice(data, pos, a, b);
    PutTwice(data, pos, a + b, c);
  }

  lemma PutTwice(data: bytes, pos: nat, a: bytes, b: bytes)
    requires pos + |a| + |b| <= |data|
    ensures Put(Put(data, pos, a), pos + |a|, b) == Put(data, pos, a + b)
  {
  }

  /** Replacing bytes in the middle leaves what is before and behind them. */
  lemma PutMiddle(a: bytes, b: bytes, b': bytes, c: bytes)
    requires |b| == |b'|
    ensures Put(a + b + c, |a|, b') == a + b' + c
  {
  }

  /** Patching the next type item records where the file ends and keeps the sections. */
  lemma PatchKeeps(labels: Labels, ps: seq<Part>, k: nat, e: Endian)
    requires labels.Valid() && k < |ps|
    ensures var was := Partial(labels, ps, k, k, e);
      && HEADER + (k + 1) * TYPE_ITEM <= |was| == Start(ps, k)
      && Put(was, HEADER + k * TYPE_ITEM, TypeItem(ps[k].kind, |was|, e)) == Partial(labels, ps, k + 1, k, e)
  {
    hide Head, Bodies, TypeItem, Put;
    var before := Head(labels, |ps|, e) + Table(ps, k, e);
    var after := Zeros((|ps| - k - 1) * TYPE_ITEM) + Bodies(ps, k);
    var was := Partial(labels, ps, k, k, e);
    assert Zeros((|ps| - k) * TYPE_ITEM) == Zeros(TYPE_ITEM) + Zeros((|ps| - k - 1) * TYPE_ITEM);
    assert was == before + Zeros(TYPE_ITEM) + after;
    PutMiddle(before, Zeros(TYPE_ITEM), TypeItem(ps[k].kind, |was|, e), after);
  }

  /** Editors whose type has none of the bits keep ids only and have no section. */
  function Kept(parts: seq<Part>, k: nat): seq<Part>
    requires k <= |parts|
  {
    if k == 0 then [] else Kept(parts, k - 1) + if parts[k - 1].kind == 0 then [] else [parts[k - 1]]
  }

  function Sections(parts: seq<Part>, defRdr: bytes, pool: seq<Entry>, e: Endian): seq<Part> {
    Kept(parts, |parts|) + [Part(NCSRT_STRING, if pool == [] then [] else Section(Entries(defRdr, pool), e))]
  }

  lemma {:induction false} KeptCounts(parts: seq<Part>, k: nat)
    requires k <= |parts|
    ensures |Kept(parts, k)| == |set j | 0 <= j < k && parts[j].kind != 0|
  {
    var s := set j | 0 <= j < k && parts[j].kind != 0;
    if k == 0 {
      assert s == {};
    } else {
      KeptCounts(parts, k - 1);
      var before := set j | 0 <= j < k - 1 && parts[j].kind != 0;
      assert s == if parts[k - 1].kind != 0 then before + {k - 1} else before;
    }
  }

  /** The sections are those of the editors that have a type, in their order, and then the strings. */
  lemma SectionsAre(parts: seq<Part>, defRdr: bytes, pool: seq<Entry>, e: Endian, i: nat)
    requires i <= |parts| && (i < |parts| ==> parts[i].kind != 0)
    ensures var ps := Sections(parts, defRdr, pool, e);
      var k := |set j | 0 <= j < i && parts[j].kind != 0|;
      && k < |ps| && (i == |parts| <==> k == |ps| - 1)
      && (i < |parts| ==> ps[k] == parts[i])
      && ps[|ps| - 1].kind == 1
  {
    KeptCounts(parts, i);
    KeptCounts(parts, |parts|);
    if i < |parts| { NextKept(parts, i); }
  }

  lemma {:induction false} KeptGrows(parts: seq<Part>, k: nat)
    requires k < |parts|
    ensures Kept(parts, k + 1) <= Kept(parts, |parts|)
    decreases |parts| - k
  {
    if k + 1 == |parts| {
    } else {
      KeptGrows(parts, k + 1);
    }
  }

  method CountSections(parts: seq<Part>) returns (n: nat)
    ensures n == 1 + |Kept(parts, |parts|)|
  {
    n := 1;
    var i := 0;
    while i < |parts|
      invariant i <= |parts| && n == 1 + |Kept(parts, i)|
    {
      if parts[i].kind != 0 { n := n + 1; }
      i := i + 1;
    }
  }

  /** The header of a new file, and a type table that is still empty. */
  method WriteHead(bin: BinStream, labels: Labels, ghost ps: seq<Part>, n: nat)
    requires labels.Valid() && bin.storage.data == [] && bin.storage.pos == 0 && n == |ps|
    modifies bin.storage
    ensures bin.storage.Valid() && bin.storage.pos == |bin.storage.data|
    ensures bin.storage.data == Partial(labels, ps, 0, 0, bin.endian)
  {
    hide Saved32;
    bin.Save32(MAGIC);
    bin.Save8Arr(labels.version);
    bin.Save8Arr(labels.format);
    bin.Save8Arr(labels.encoding);
    bin.Save8Arr(labels.vendor);
    bin.Save32(n);
    assert bin.storage.data == Head(labels, n, bin.endian);
    bin.Save8Arr(Zeros(n * TYPE_ITEM));
    assert bin.storage.data == Partial(labels, ps, 0, 0, bin.endian);
  }

  /** One turn of the loop of onSave: patch the type item, then let the editor write its section. */
  method SavePart(bin: BinStream, ghost labels: Labels, ghost ps: seq<Part>, idx: nat, part: Part)
    requires labels.Valid() && idx < |ps| && part == ps[idx]
    requires bin.storage.data == Partial(labels, ps, idx, idx, bin.endian)
    modifies bin.storage
    ensures bin.storage.Valid() && bin.storage.pos == |bin.storage.data|
    ensures bin.storage.data == Partial(labels, ps, idx + 1, idx + 1, bin.endian)
  {
    hide Head, Table, TypeItem;
    PatchKeeps(labels, ps, idx, bin.endian);
    SaveTypeItem(bin, idx, part.kind);
    bin.Save8Arr(part.body);
    assert bin.storage.data == Partial(labels, ps, idx + 1, idx + 1, bin.endian);
  }

  method SavePackage(bin: BinStream, labels: Labels, parts: seq<Part>, defRdr: bytes, pool: seq<Entry>)
    requires labels.Valid() && bin.storage.data == [] && bin.storage.pos == 0
    requires NulFree(defRdr) && forall i :: 0 <= i < |pool| ==> NulFree(pool[i].str)
    modifies bin.storage
    ensures bin.storage.data == Package(labels, Sections(parts, defRdr, pool, bin.endian), bin.endian)
  {
    hide Partial, Section, Put, Kept;
    ghost var ps := Sections(parts, defRdr, pool, bin.endian);
    var n := CountSections(parts);
    WriteHead(bin, labels, ps, n);
    var idx := SaveParts(bin, labels, ps, parts);
    SaveStrings(bin, labels, ps, idx, defRdr, pool);
  }

  /** The sections of the editors, one after the other. */
  method SaveParts(bin: BinStream, ghost labels: Labels, ghost ps: seq<Part>, parts: seq<Part>) returns (idx: nat)
    requires labels.Valid() && bin.storage.Valid() && bin.storage.pos == |bin.storage.data|
    requires Kept(parts, |parts|) < ps && bin.storage.data == Partial(labels, ps, 0, 0, bin.endian)
    modifies bin.storage
    ensures idx == |Kept(parts, |parts|)| && bin.storage.Valid() && bin.storage.pos == |bin.storage.data|
    ensures bin.storage.data == Partial(labels, ps, idx, idx, bin.endian)
  {
    hide Partial, Section, Put, Kept;
    NoneKept(parts);
    idx := 0;
    var i := 0;
    while i < |parts|
      invariant i <= |parts| && idx == |Kept(parts, i)| <= |Kept(parts, |parts|)|
      invariant bin.storage.Valid() && bin.storage.pos == |bin.storage.data|
      invariant bin.storage.data == Partial(labels, ps, idx, idx, bin.endian)
    {
      NextKept(parts, i);
      if parts[i].kind != 0 {
        assert ps[idx] == Kept(parts, |parts|)[idx] == parts[i];
        SavePart(bin, labels, ps, idx, parts[i]);
        idx := idx + 1;
      }
      i := i + 1;
    }
  }

  lemma NoneKept(parts: seq<Part>)
    ensures Kept(parts, 0) == []
  {
  }

  lemma NextKept(parts: seq<Part>, i: nat)
    requires i < |parts|
    ensures var kept, all := Kept(parts, i), Kept(parts, |parts|);
      && |Kept(parts, i + 1)| == |kept| + (if parts[i].kind != 0 then 1 else 0)
      && (parts[i].kind != 0 ==> |kept| < |all| && all[|kept|] == parts[i])
  {
    KeptGrows(parts, i);
    if parts[i].kind != 0 { assert Kept(parts, i + 1)[|Kept(parts, i)|] == parts[i]; }
  }

  /** The end of onSave: the type item of the string section and the section. */
  method SaveStrings(bin: BinStream, ghost labels: Labels, ghost ps: seq<Part>, idx: nat, defRdr: bytes,
      pool: seq<Entry>)
    requires labels.Valid() && |ps| == idx + 1
    requires ps[idx] == Part(NCSRT_STRING, if pool == [] then [] else Section(Entries(defRdr, pool), bin.endian))
    requires bin.storage.data == Partial(labels, ps, idx, idx, bin.endian)
    requires NulFree(defRdr) && forall i :: 0 <= i < |pool| ==> NulFree(pool[i].str)
    modifies bin.storage
    ensures bin.storage.data == Package(labels, ps, bin.endian)
  {
    hide Partial, Section, Put, Package;
    PatchKeeps(labels, ps, idx, bin.endian);
    SaveTypeItem(bin, idx, NCSRT_STRING);
    WriteStringResource(bin, defRdr, pool);
    LastSection(labels, ps, bin.endian);
  }

  lemma LastSection(labels: Labels, ps: seq<Part>, e: Endian)
    requires labels.Valid() && ps != []
    ensures Partial(labels, ps, |ps|, |ps| - 1, e) + ps[|ps| - 1].body == Package(labels, ps, e)
  {
    hide Head, Table;
    assert Zeros(0) == [];
  }

  // ------------------------------------------------------------------- reading

  function ItemKind(file: bytes, k: nat, e: Endian): nat
    requires HEADER + (k + 1) * TYPE_ITEM <= |file|
  {
    Get32(file, HEADER + k * TYPE_ITEM, e)
  }

  function ItemStart(file: bytes, k: nat, e: Endian): nat
    requires HEADER + (k + 1) * TYPE_ITEM <= |file|
  {
    Get32(file, HEADER + k * TYPE_ITEM + 8, e)
  }

  /** What ncsLoadResPackageFromFile accepts: a header that begins with the letters of MGRP as a number. */
  predicate IsPackage(file: bytes, e: Endian) {
    48 <= |file| && Get32(file, 0, e) == 0x4d475250
  }

  /** search_type_item goes through the table if there is a section at all. */
  function FirstStrings(file: bytes, e: Endian): (r: Option<nat>)
    requires IsPackage(file, e)
    ensures r.Some? ==> HEADER + (r.value + 1) * TYPE_ITEM <= |file|
  {
    if Get32(file, 44, e) <= 0 then None else SearchStrings(file, 0, e)
  }

  /**
   The loop of search_type_item for strings; the source compares the number of
   sections with a counter that stays 0.
  */
  function SearchStrings(file: bytes, k: nat, e: Endian): (r: Option<nat>)
    ensures r.Some? ==> HEADER + (r.value + 1) * TYPE_ITEM <= |file|
    decreases |file| - k
  {
    if |file| < HEADER + (k + 1) * TYPE_ITEM then None
    else if ItemKind(file, k, e) % 2 == 1 then Some(k)
    else SearchStrings(file, k + 1, e)
  }

  /** ncsGetString, in a package that has the string section inside; texts are found by locale and not here. */
  function NcsGetString(file: bytes, id: nat, e: Endian): Option<bytes>
    requires TypeOf(id) != NCSRT_TEXT
  {
    if TypeOf(id) != NCSRT_STRING || !IsPackage(file, e) then None
    else
      match FirstStrings(file, e)
      case None => None
      case Some(k) =>
        var base := ItemStart(file, k, e);
        if HasTable(file, base, e) then GetString(file, base, id, e) else None
  }

  predicate GoodParts(ps: seq<Part>) {
    Start(ps, |ps|) < LIMIT32 && forall k :: 0 <= k < |ps| ==> ps[k].kind < LIMIT32
  }

  lemma {:induction false} TableHas(ps: seq<Part>, i: nat, k: nat, e: Endian)
    requires i < k <= |ps|
    ensures At(Table(ps, k, e), i * TYPE_ITEM, TypeItem(ps[i].kind, Start(ps, i), e))
    decreases k
  {
    if i == k - 1 {
    } else {
      TableHas(ps, i, k - 1, e);
    }
  }

  lemma {:induction false} BodiesHave(ps: seq<Part>, i: nat, k: nat)
    requires i < k <= |ps|
    ensures At(Bodies(ps, k), |Bodies(ps, i)|, ps[i].body)
    decreases k
  {
    if i == k - 1 {
    } else {
      BodiesHave(ps, i, k - 1);
    }
  }

  lemma AtWhole(a: bytes, b: bytes, c: bytes)
    ensures At(a + b + c, |a|, b) && At(a + b + c, |a| + |b|, c)
  {
  }

  /** Every type item tells the type of its section and where the section begins, and there it is. */
  lemma SectionsAreFound(labels: Labels, ps: seq<Part>, e: Endian, k: nat)
    requires labels.Valid() && GoodParts(ps) && k < |ps|
    ensures var file := Package(labels, ps, e);
      && 48 + 12 * (k + 1) <= |file|
      && ItemKind(file, k, e) == Get32(file, 48 + 12 * k, e) == ps[k].kind
      && ItemStart(file, k, e) == Get32(file, 48 + 12 * k + 8, e) == Start(ps, k)
      && At(file, Start(ps, k), ps[k].body)
  {
    hide Head, At, Table, TypeItem, Get32, Bodies, Package;
    ItemIsThere(labels, ps, e, k);
    BodyIsThere(labels, ps, e, k);
    StartsGrow(ps, k);
    TypeItemAt(Package(labels, ps, e), HEADER + k * TYPE_ITEM, ps[k].kind, Start(ps, k), e);
  }

  lemma ItemIsThere(labels: Labels, ps: seq<Part>, e: Endian, k: nat)
    requires labels.Valid() && k < |ps|
    ensures At(Package(labels, ps, e), HEADER + k * TYPE_ITEM, TypeItem(ps[k].kind, Start(ps, k), e))
  {
    hide Head, At, Table, TypeItem, Bodies, Start;
    AtWhole(Head(labels, |ps|, e), Table(ps, |ps|, e), Bodies(ps, |ps|));
    TableHas(ps, k, |ps|, e);
    AtWithin(Package(labels, ps, e), HEADER, Table(ps, |ps|, e), k * TYPE_ITEM, TypeItem(ps[k].kind, Start(ps, k), e));
  }

  lemma BodyIsThere(labels: Labels, ps: seq<Part>, e: Endian, k: nat)
    requires labels.Valid() && k < |ps|
    ensures At(Package(labels, ps, e), Start(ps, k), ps[k].body)
  {
    hide Head, At, Table, TypeItem, Bodies;
    AtWhole(Head(labels, |ps|, e), Table(ps, |ps|, e), Bodies(ps, |ps|));
    BodiesHave(ps, k, |ps|);
    StartsGrow(ps, k);
    AtWithin(Package(labels, ps, e), Start(ps, 0), Bodies(ps, |ps|), |Bodies(ps, k)|, ps[k].body);
  }

  lemma StartsGrow(ps: seq<Part>, k: nat)
    requires k < |ps|
    ensures Start(ps, k) <= Start(ps, |ps|) && Bodies(ps, 0) == []
  {
    BodiesHave(ps, k, |ps|);
  }

  lemma TypeItemAt(file: bytes, at: nat, kind: nat, start: nat, e: Endian)
    requires At(file, at, TypeItem(kind, start, e)) && kind < LIMIT32 && start < LIMIT32
    ensures at + TYPE_ITEM <= |file| && Get32(file, at, e) == kind && Get32(file, at + 8, e) == start
  {
    ItemAt(file, at, kind, start, e);
  }

  lemma {:induction false} SearchReaches(labels: Labels, ps: seq<Part>, e: Endian, k: nat)
    requires labels.Valid() && GoodParts(ps) && k < |ps|
    requires ps[|ps| - 1].kind % 2 == 1 && forall i :: 0 <= i < |ps| - 1 ==> ps[i].kind % 2 == 0
    ensures SearchStrings(Package(labels, ps, e), k, e) == Some(|ps| - 1)
    decreases |ps| - k
  {
    hide Package, ItemKind, ItemStart;
    SectionsAreFound(labels, ps, e, k);
    if k == |ps| - 1 {
    } else {
      SearchReaches(labels, ps, e, k + 1);
    }
  }

  /** Editors leave the string bit alone, pool ids are string ids by ascending order, and all fits into 32 bits. */
  predicate GoodPackage(parts: seq<Part>, defRdr: bytes, pool: seq<Entry>, e: Endian) {
    && (forall i :: 0 <= i < |parts| ==> parts[i].kind % 2 == 0)
    && (forall i :: 0 <= i < |pool| ==> TypeOf(pool[i].id) == NCSRT_STRING)
    && GoodEntries(Entries(defRdr, pool))
    && GoodParts(Sections(parts, defRdr, pool, e))
  }

  /** What the run-time library finds for an id in a written package is what the pool has for it. */
  ghost predicate ReadsBack(labels: Labels, parts: seq<Part>, defRdr: bytes, pool: seq<Entry>, e: Endian, id: nat)
    requires labels.Valid() && TypeOf(id) != NCSRT_TEXT
  {
    var es := Entries(defRdr, pool);
    NcsGetString(Package(labels, Sections(parts, defRdr, pool, e), e), id, e) == Lookup(es, id, |es|)
  }

  /** The search for the string section ends at its type item. */
  lemma StringsAreLast(labels: Labels, parts: seq<Part>, defRdr: bytes, pool: seq<Entry>, e: Endian)
    requires labels.Valid() && GoodPackage(parts, defRdr, pool, e)
    ensures var ps := Sections(parts, defRdr, pool, e); var last := |ps| - 1; var file := Package(labels, ps, e);
      && IsPackage(file, e) && FirstStrings(file, e) == Some(last)
      && ItemStart(file, last, e) == Start(ps, last) && At(file, Start(ps, last), ps[last].body)
      && |file| == Start(ps, last) + |ps[last].body|
  {
    hide Package, At, Start, GoodParts, Get32;
    var ps := Sections(parts, defRdr, pool, e);
    KeptAreEven(parts, |parts|);
    SearchReaches(labels, ps, e, 0);
    FewParts(ps);
    HeaderLayout(labels, ps, e);
    SectionsAreFound(labels, ps, e, |ps| - 1);
    PackageLength(labels, ps, e);
  }

  lemma FewParts(ps: seq<Part>)
    requires GoodParts(ps)
    ensures |ps| < LIMIT32
  {
  }

  /** The fields of NCSRM_HEADER lie where the library looks for them. */
  lemma HeaderLayout(labels: Labels, ps: seq<Part>, e: Endian)
    requires labels.Valid() && |ps| < LIMIT32
    ensures var file := Package(labels, ps, e);
      && IsPackage(file, e) && Get32(file, 44, e) == |ps|
      && At(file, 4, labels.version) && At(file, 8, labels.format)
      && At(file, 12, labels.encoding) && At(file, 28, labels.vendor)
  {
    var file, head := Package(labels, ps, e), Head(labels, |ps|, e);
    var magic, count := Saved32(MAGIC, e), Saved32(|ps|, e);
    hide Table, Bodies, Saved32, Get32;
    WholeIs(labels, ps, e);
    AtParts(file, 0, head, Table(ps, |ps|, e) + Bodies(ps, |ps|));
    assert At(file, 0, head);
    hide At, Package;
    AtParts(file, 0, magic + labels.version + labels.format + labels.encoding + labels.vendor, count);
    AtParts(file, 0, magic + labels.version + labels.format + labels.encoding, labels.vendor);
    AtParts(file, 0, magic + labels.version + labels.format, labels.encoding);
    AtParts(file, 0, magic + labels.version, labels.format);
    AtParts(file, 0, magic, labels.version);
    GetSaved(file, 0, MAGIC, e);
    GetSaved(file, 44, |ps|, e);
  }

  lemma WholeIs(labels: Labels, ps: seq<Part>, e: Endian)
    requires labels.Valid()
    ensures var file := Package(labels, ps, e);
      At(file, 0, Head(labels, |ps|, e) + (Table(ps, |ps|, e) + Bodies(ps, |ps|)))
  {
    assert Package(labels, ps, e) == Head(labels, |ps|, e) + (Table(ps, |ps|, e) + Bodies(ps, |ps|));
  }

  lemma PackageLength(labels: Labels, ps: seq<Part>, e: Endian)
    requires labels.Valid() && ps != []
    ensures |Package(labels, ps, e)| == Start(ps, |ps| - 1) + |ps[|ps| - 1].body|
  {
  }

  /**
   With a string in the pool, the library finds for every id that is no text id
   what was put into the pool, and nothing for an id without a string.
  */
  lemma PackageReadsBack(labels: Labels, parts: seq<Part>, defRdr: bytes, pool: seq<Entry>, e: Endian, id: nat)
    requires labels.Valid() && GoodPackage(parts, defRdr, pool, e) && TypeOf(id) != NCSRT_TEXT
    requires pool != []
    ensures ReadsBack(labels, parts, defRdr, pool, e, id)
  {
    hide Package, GetString, Section, At, Start;
    var ps, es := Sections(parts, defRdr, pool, e), Entries(defRdr, pool);
    if TypeOf(id) == NCSRT_STRING {
      StringsAreLast(labels, parts, defRdr, pool, e);
      StringsReadBack(Package(labels, ps, e), Start(ps, |ps| - 1), es, e, id);
    } else {
      LookupFinds(es, id, |es|);
    }
  }

  /** Without one there is no section behind the last type item, and even the default renderer is not found. */
  lemma EmptyPoolLosesRenderer(labels: Labels, parts: seq<Part>, defRdr: bytes, e: Endian)
    requires labels.Valid() && GoodPackage(parts, defRdr, [], e)
    ensures !ReadsBack(labels, parts, defRdr, [], e, SYSSTR_DEFRDR)
  {
    hide Package, At, Start;
    StringsAreLast(labels, parts, defRdr, [], e);
    var es := Entries(defRdr, []);
    assert es[0].id == SYSSTR_DEFRDR;
    LookupFinds(es, SYSSTR_DEFRDR, |es|);
  }

  /** All strings are read back exactly when the pool is not empty. */
  lemma ReadsBackExactlyWhen(labels: Labels, parts: seq<Part>, defRdr: bytes, pool: seq<Entry>, e: Endian)
    requires labels.Valid() && GoodPackage(parts, defRdr, pool, e)
    ensures pool != [] <==>
      forall id: nat :: TypeOf(id) != NCSRT_TEXT ==> ReadsBack(labels, parts, defRdr, pool, e, id)
  {
    hide ReadsBack, GoodPackage;
    if pool == [] {
      EmptyPoolLosesRenderer(labels, parts, defRdr, e);
      assert TypeOf(SYSSTR_DEFRDR) == NCSRT_STRING;
    } else {
      forall id: nat | TypeOf(id) != NCSRT_TEXT ensures ReadsBack(labels, parts, defRdr, pool, e, id) {
        PackageReadsBack(labels, parts, defRdr, pool, e, id);
      }
    }
  }

  lemma {:induction false} KeptAreEven(parts: seq<Part>, k: nat)
    requires k <= |parts| && forall i :: 0 <= i < |parts| ==> parts[i].kind % 2 == 0
    ensures forall i :: 0 <= i < |Kept(parts, k)| ==> Kept(parts, k)[i].kind % 2 == 0
  {
    if k == 0 {
    } else {
      KeptAreEven(parts, k - 1);
    }
  }
}
