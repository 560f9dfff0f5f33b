/**
 The string section of a resource package: how it is written
 (mainframe/mainframe.cpp) and how a string is found in it again
 (tools/res2c/resource.c, tools/res2c/resource.h).
*/
module PackageStrings {

  import opened PackageBytes
  import opened Wrappers

  const SECT_HEADER := 8
  const ID_ITEM := 12

  /** The id of the default renderer's name, the only system string. */
  const SYSSTR_DEFRDR := 0x1_0001

  datatype Entry = Entry(id: nat, str: bytes)

  predicate NulFree(str: bytes) { forall i :: 0 <= i < |str| ==> str[i] != 0 }

  // ------------------------------------------------------------------- writing

  /** The length of a string with at least three NULs, up to the next multiple of four. */
  function FillLen(n: nat): (r: nat)
    ensures n + 3 <= r <= n + 6 && r % 4 == 0
  {
    if (n + 3) % 4 != 0 then ((n + 3) / 4 + 1) * 4 else n + 3
  }

  function Padded(str: bytes): (r: bytes)
    ensures |r| == FillLen(|str|)
  {
    str + Zeros(FillLen(|str|) - |str|)
  }

  /** What c_str gives of a string: the part before its first NUL. */
  function CString(str: bytes): bytes {
    if str == [] || str[0] == 0 then [] else [str[0]] + CString(str[1..])
  }

  lemma {:induction false} CStringOfNulFree(str: bytes)
    requires NulFree(str)
    ensures CString(str) == str
  {
    if str == [] {
    } else {
      CStringOfNulFree(str[1..]);
    }
  }

  /** The part that is kept has no NUL and ends at the first one. */
  lemma {:induction false} CStringCuts(str: bytes)
    ensures var c := CString(str); c <= str && NulFree(c) && (c != str ==> str[|c|] == 0)
  {
    if str == [] || str[0] == 0 {
    } else {
      CStringCuts(str[1..]);
    }
  }

  function Data(es: seq<Entry>, k: nat): bytes
    requires k <= |es|
  {
    if k == 0 then [] else Data(es, k - 1) + Padded(es[k - 1].str)
  }

  /** Where string k begins, counted from the beginning of the section. */
  function Offset(es: seq<Entry>, k: nat): nat
    requires k <= |es|
  {
    SECT_HEADER + |es| * ID_ITEM + |Data(es, k)|
  }

  function Item(id: nat, offset: nat, e: Endian): (r: bytes)
    ensures |r| == ID_ITEM
  {
    Saved32(id, e) + Saved32(0, e) + Saved32(offset, e)
  }

  function Items(es: seq<Entry>, k: nat, e: Endian): (r: bytes)
    requires k <= |es|
    ensures |r| == k * ID_ITEM
  {
    if k == 0 then [] else Items(es, k - 1, e) + Item(es[k - 1].id, Offset(es, k - 1), e)
  }

  function Section(es: seq<Entry>, e: Endian): bytes {
    Saved32(Offset(es, |es|), e) + Saved32(|es|, e) + Items(es, |es|, e) + Data(es, |es|)
  }

  datatype IdItem = IdItem(id: nat, filenameId: nat, offset: nat)

  method SaveString(id: nat, str: bytes, idMaps: array<IdItem>, i: nat, strBuff: bytes, offset: nat)
    returns (newBuff: bytes, newOffset: nat)
    requires i < idMaps.Length
    modifies idMaps
    ensures idMaps[..] == old(idMaps[..])[i := IdItem(id, 0, offset)]
    ensures newBuff == strBuff + CString(str) + Zeros(FillLen(|str|) - |str|) && newOffset == offset + FillLen(|str|)
    ensures NulFree(str) ==> newBuff == strBuff + Padded(str)
  {
    var fillLen := |str| + 3;
    if fillLen % 4 != 0 {
      fillLen := (fillLen / 4 + 1) * 4;
    }
    idMaps[i] := IdItem(id, 0, offset);
    newBuff := strBuff + CString(str) + Zeros(fillLen - |str|);
    newOffset := offset + fillLen;
    if NulFree(str) {
      CStringOfNulFree(str);
      assert newBuff == strBuff + Padded(str);
    }
  }

  /** The strings in the order in which they are written; the pool is walked by ascending ids. */
  function Entries(defRdr: bytes, pool: seq<Entry>): seq<Entry> {
    [Entry(SYSSTR_DEFRDR, defRdr)] + pool
  }

  method WriteStringResource(bin: BinStream, defRdr: bytes, pool: seq<Entry>)
    requires bin.storage.Valid() && bin.storage.pos == |bin.storage.data|
    requires NulFree(defRdr) && forall i :: 0 <= i < |pool| ==> NulFree(pool[i].str)
    modifies bin.storage
    ensures bin.storage.Valid() && bin.storage.pos == |bin.storage.data|
    ensures bin.storage.data == old(bin.storage.data) +
      (if pool == [] then [] else Section(Entries(defRdr, pool), bin.endian))
  {
    if |pool| == 0 {
      assert bin.storage.data == bin.storage.data + [];
      return;
    }
    var idMaps, offsetData, strBuff := CollectStrings(defRdr, pool);
    WriteSection(bin, Entries(defRdr, pool), idMaps, offsetData, strBuff);
  }

  /** The items and the strings, the name of the default renderer first. */
  method CollectStrings(defRdr: bytes, pool: seq<Entry>)
    returns (idMaps: array<IdItem>, offsetData: nat, strBuff: bytes)
    requires NulFree(defRdr) && forall i :: 0 <= i < |pool| ==> NulFree(pool[i].str)
    ensures var es := Entries(defRdr, pool);
      && fresh(idMaps) && idMaps.Length == |es| && strBuff == Data(es, |es|) && offsetData == Offset(es, |es|)
      && forall k :: 0 <= k < |es| ==> idMaps[k] == IdItem(es[k].id, 0, Offset(es, k))
  {
    ghost var es := Entries(defRdr, pool);
    hide Offset, NulFree;
    var nrId := |pool| + 1;
    var baseSect := SECT_HEADER + nrId * ID_ITEM;
    NothingStored(es);
    offsetData, strBuff := baseSect, [];
    idMaps := new IdItem[nrId](_ => IdItem(0, 0, 0));
    strBuff, offsetData := SaveNext(es, SYSSTR_DEFRDR, defRdr, idMaps, 0, strBuff, offsetData);
    var i := 1;
    while i < nrId
      invariant 1 <= i <= nrId && fresh(idMaps) && idMaps.Length == nrId
      invariant Stored(es, i, idMaps[..], strBuff, offsetData)
    {
      strBuff, offsetData := SaveNext(es, pool[i - 1].id, pool[i - 1].str, idMaps, i, strBuff, offsetData);
      i := i + 1;
    }
    assert forall k :: 0 <= k < nrId ==> idMaps[k] == idMaps[..][k];
  }

  /** The first i strings are collected. */
  ghost predicate Stored(es: seq<Entry>, i: nat, items: seq<IdItem>, strBuff: bytes, offset: nat)
    requires i <= |es| == |items|
  {
    && strBuff == Data(es, i) && offset == Offset(es, i)
    && forall k :: 0 <= k < i ==> items[k] == IdItem(es[k].id, 0, Offset(es, k))
  }

  lemma NothingStored(es: seq<Entry>)
    ensures Data(es, 0) == [] && Offset(es, 0) == SECT_HEADER + |es| * ID_ITEM
  {
  }

  lemma DataStep(es: seq<Entry>, i: nat)
    requires i < |es|
    ensures Data(es, i + 1) == Data(es, i) + Padded(es[i].str)
    ensures Offset(es, i + 1) == Offset(es, i) + FillLen(|es[i].str|)
  {
  }

  method SaveNext(ghost es: seq<Entry>, id: nat, str: bytes, idMaps: array<IdItem>, i: nat, strBuff: bytes, offset: nat)
    returns (newBuff: bytes, newOffset: nat)
    requires i < idMaps.Length == |es| && es[i] == Entry(id, str) && NulFree(str)
    requires Stored(es, i, idMaps[..], strBuff, offset)
    modifies idMaps
    ensures Stored(es, i + 1, idMaps[..], newBuff, newOffset)
  {
    DataStep(es, i);
    hide Data, Offset, FillLen, Padded, CString, NulFree;
    newBuff, newOffset := SaveString(id, str, idMaps, i, strBuff, offset);
  }

  /** The part of writeStringResource that sends what was gathered to the file. */
  method WriteSection(bin: BinStream, ghost es: seq<Entry>, idMaps: array<IdItem>, offsetData: nat, strBuff: bytes)
    requires bin.storage.Valid() && bin.storage.pos == |bin.storage.data|
    requires idMaps.Length == |es| && strBuff == Data(es, |es|) && offsetData == Offset(es, |es|)
    requires forall k :: 0 <= k < |es| ==> idMaps[k] == IdItem(es[k].id, 0, Offset(es, k))
    modifies bin.storage
    ensures bin.storage.Valid() && bin.storage.pos == |bin.storage.data|
    ensures bin.storage.data == old(bin.storage.data) + Section(es, bin.endian)
  {
    hide Data, Saved32;
    var nrId := idMaps.Length;
    ghost var was := bin.storage.data;
    bin.Save32(offsetData);
    bin.Save32(nrId);
    ghost var head := was + Saved32(offsetData, bin.endian) + Saved32(nrId, bin.endian);
    assert bin.storage.data == head;
    var i := 0;
    while i < nrId
      invariant i <= nrId
      invariant bin.storage.Valid() && bin.storage.pos == |bin.storage.data|
      invariant bin.storage.data == head + Items(es, i, bin.endian)
    {
      SaveItem(bin, idMaps[i]);
      i := i + 1;
    }
    bin.Save8Arr(strBuff[..offsetData - (SECT_HEADER + nrId * ID_ITEM)]);
    assert bin.storage.data == was + Section(es, bin.endian);
  }

  method SaveItem(bin: BinStream, item: IdItem)
    requires bin.storage.Valid() && bin.storage.pos == |bin.storage.data| && item.filenameId == 0
    modifies bin.storage
    ensures bin.storage.Valid() && bin.storage.pos == |bin.storage.data|
    ensures bin.storage.data == old(bin.storage.data) + Item(item.id, item.offset, bin.endian)
  {
    bin.Save32(item.id);
    bin.Save32(item.filenameId);
    bin.Save32(item.offset);
  }

  // ------------------------------------------------------------------- reading

  function ItemId(file: bytes, base: nat, k: nat, e: Endian): int
    requires base + SECT_HEADER + (k + 1) * ID_ITEM <= |file|
  {
    Get32(file, base + SECT_HEADER + k * ID_ITEM, e)
  }

  function ItemOffset(file: bytes, base: nat, k: nat, e: Endian): nat
    requires base + SECT_HEADER + (k + 1) * ID_ITEM <= |file|
  {
    Get32(file, base + SECT_HEADER + k * ID_ITEM + 8, e)
  }

  /** The number of items, and whether the file is long enough for them. */
  function ItemCount(file: bytes, base: nat, e: Endian): nat
    requires base + SECT_HEADER <= |file|
  {
    Get32(file, base + 4, e)
  }

  predicate HasTable(file: bytes, base: nat, e: Endian) {
    base + SECT_HEADER <= |file| && base + SECT_HEADER + ItemCount(file, base, e) * ID_ITEM <= |file|
  }

  function Search(file: bytes, base: nat, id: nat, low: nat, high: nat, e: Endian): (r: nat)
    requires HasTable(file, base, e) && low <= high <= ItemCount(file, base, e)
    ensures low <= r <= high
    decreases high - low
  {
    if low < high then
      var mid := (low + high) / 2;
      if ItemId(file, base, mid, e) < id then Search(file, base, id, mid + 1, high, e)
      else Search(file, base, id, low, mid, e)
    else low
  }

  method BinarySearchIdItem(file: bytes, base: nat, id: nat, e: Endian) returns (at: Option<nat>)
    requires HasTable(file, base, e)
    ensures at == FindItem(file, base, id, e)
  {
    hide Get32;
    var count := Get32(file, base + 4, e);
    var low, high := 0, count;
    while low < high
      invariant 0 <= low <= high <= count
      invariant Search(file, base, id, low, high, e) == Search(file, base, id, 0, count, e)
      decreases high - low
    {
      var mid := (low + high) / 2;
      if Get32(file, base + SECT_HEADER + mid * ID_ITEM, e) < id {
        low := mid + 1;
      } else {
        high := mid;
      }
    }
    if low < count && Get32(file, base + SECT_HEADER + low * ID_ITEM, e) == id {
      at := Some(low);
    } else {
      at := None;
    }
  }

  function FindItem(file: bytes, base: nat, id: nat, e: Endian): Option<nat>
    requires HasTable(file, base, e)
  {
    var count := ItemCount(file, base, e);
    var low := Search(file, base, id, 0, count, e);
    if low < count && ItemId(file, base, low, e) == id then Some(low) else None
  }

  predicate Ascends(file: bytes, base: nat, e: Endian)
    requires HasTable(file, base, e)
  {
    forall i, k :: 0 <= i < k < ItemCount(file, base, e) ==> ItemId(file, base, i, e) < ItemId(file, base, k, e)
  }

  lemma MiddleTells(file: bytes, base: nat, id: nat, mid: nat, e: Endian)
    requires HasTable(file, base, e) && Ascends(file, base, e) && mid < ItemCount(file, base, e)
    ensures ItemId(file, base, mid, e) < id ==> forall k :: 0 <= k <= mid ==> ItemId(file, base, k, e) < id
    ensures id <= ItemId(file, base, mid, e) ==>
      forall k :: mid <= k < ItemCount(file, base, e) ==> id <= ItemId(file, base, k, e)
  {
    hide ItemId, ItemCount;
  }

  lemma {:induction false} SearchSplits(file: bytes, base: nat, id: nat, low: nat, high: nat, e: Endian)
    requires HasTable(file, base, e) && low <= high <= ItemCount(file, base, e) && Ascends(file, base, e)
    requires forall k :: 0 <= k < low ==> ItemId(file, base, k, e) < id
    requires forall k :: high <= k < ItemCount(file, base, e) ==> id <= ItemId(file, base, k, e)
    ensures var r := Search(file, base, id, low, high, e);
      && (forall k :: 0 <= k < r ==> ItemId(file, base, k, e) < id)
      && (forall k :: r <= k < ItemCount(file, base, e) ==> id <= ItemId(file, base, k, e))
    decreases high - low
  {
    hide ItemId, ItemCount;
    if high <= low {
    } else {
      var mid := (low + high) / 2;
      MiddleTells(file, base, id, mid, e);
      hide Ascends, HasTable;
      if ItemId(file, base, mid, e) < id {
        SearchSplits(file, base, id, mid + 1, high, e);
      } else {
        SearchSplits(file, base, id, low, mid, e);
      }
    }
  }

  /** In a table with ascending ids the search finds exactly the item of the id. */
  lemma SearchFinds(file: bytes, base: nat, id: nat, e: Endian, k: nat)
    requires HasTable(file, base, e) && Ascends(file, base, e) && k < ItemCount(file, base, e)
    ensures FindItem(file, base, id, e) == Some(k) <==> ItemId(file, base, k, e) == id
  {
    SearchSplits(file, base, id, 0, ItemCount(file, base, e), e);
  }

  /** A C string: the bytes up to the next NUL. */
  function CStringAt(file: bytes, offset: nat): bytes
    decreases |file| - offset
  {
    if offset >= |file| || file[offset] == 0 then [] else [file[offset]] + CStringAt(file, offset + 1)
  }

  /** ncsGetString within the string section. */
  function GetString(file: bytes, base: nat, id: nat, e: Endian): Option<bytes>
    requires HasTable(file, base, e)
  {
    match FindItem(file, base, id, e)
    case None => None
    case Some(k) => Some(CStringAt(file, base + ItemOffset(file, base, k, e)))
  }

  // --------------------------------------------------------------- reading back

  /** What the pool promises: ids ascend, strings are C strings, and all fits into 32 bits. */
  predicate GoodEntries(es: seq<Entry>) {
    && (forall i, k :: 0 <= i < k < |es| ==> es[i].id < es[k].id)
    && (forall i :: 0 <= i < |es| ==> es[i].id < LIMIT32 && NulFree(es[i].str))
    && Offset(es, |es|) < LIMIT32
  }

  lemma {:induction false} DataHas(es: seq<Entry>, i: nat, k: nat)
    requires i < k <= |es|
    ensures At(Data(es, k), |Data(es, i)|, Padded(es[i].str))
    decreases k
  {
    if i == k - 1 {
    } else {
      DataHas(es, i, k - 1);
    }
  }

  lemma {:induction false} ItemsHave(es: seq<Entry>, i: nat, k: nat, e: Endian)
    requires i < k <= |es|
    ensures At(Items(es, k, e), i * ID_ITEM, Item(es[i].id, Offset(es, i), e))
    decreases k
  {
    if i == k - 1 {
    } else {
      ItemsHave(es, i, k - 1, e);
    }
  }

  lemma SectionParts(file: bytes, base: nat, es: seq<Entry>, e: Endian)
    requires At(file, base, Section(es, e))
    ensures At(file, base, Saved32(Offset(es, |es|), e)) && At(file, base + 4, Saved32(|es|, e))
    ensures At(file, base + SECT_HEADER, Items(es, |es|, e))
    ensures At(file, base + SECT_HEADER + |es| * ID_ITEM, Data(es, |es|))
  {
    hide Saved32, Items, Data, At;
    var a, b, c, d := Saved32(Offset(es, |es|), e), Saved32(|es|, e), Items(es, |es|, e), Data(es, |es|);
    AtParts(file, base, a + b + c, d);
    AtParts(file, base, a + b, c);
    AtParts(file, base, a, b);
  }

  lemma OffsetsGrow(es: seq<Entry>, i: nat, k: nat)
    requires i <= k <= |es|
    ensures Offset(es, i) <= Offset(es, k) && (i < k ==> Offset(es, i) + |Padded(es[i].str)| <= Offset(es, k))
  {
    if i < k { DataHas(es, i, k); }
  }

  /** Each item of the table says its id and where its string is. */
  lemma ItemsSay(file: bytes, base: nat, es: seq<Entry>, e: Endian, k: nat)
    requires At(file, base, Section(es, e)) && GoodEntries(es) && k < |es|
    ensures base + SECT_HEADER + (k + 1) * ID_ITEM <= |file|
    ensures ItemId(file, base, k, e) == es[k].id && ItemOffset(file, base, k, e) == Offset(es, k)
  {
    ItemIsThere(file, base, es, e, k);
    OffsetsGrow(es, k, |es|);
    hide Item, Items, At, Section, Offset, Get32;
    ItemAt(file, base + SECT_HEADER + k * ID_ITEM, es[k].id, Offset(es, k), e);
  }

  lemma ItemIsThere(file: bytes, base: nat, es: seq<Entry>, e: Endian, k: nat)
    requires At(file, base, Section(es, e)) && k < |es|
    ensures At(file, base + SECT_HEADER + k * ID_ITEM, Item(es[k].id, Offset(es, k), e))
  {
    SectionParts(file, base, es, e);
    ItemsHave(es, k, |es|, e);
    hide Item, Items, At, Section, Offset;
    AtWithin(file, base + SECT_HEADER, Items(es, |es|, e), k * ID_ITEM, Item(es[k].id, Offset(es, k), e));
  }

  lemma ItemAt(file: bytes, at: nat, id: nat, offset: nat, e: Endian)
    requires At(file, at, Item(id, offset, e)) && id < LIMIT32 && offset < LIMIT32
    ensures at + ID_ITEM <= |file| && Get32(file, at, e) == id && Get32(file, at + 8, e) == offset
  {
    assert at + ID_ITEM <= |file|;
    hide At, Get32, Saved32;
    AtParts(file, at, Saved32(id, e) + Saved32(0, e), Saved32(offset, e));
    AtParts(file, at, Saved32(id, e), Saved32(0, e));
    GetSaved(file, at, id, e);
    GetSaved(file, at + 8, offset, e);
  }

  lemma CountSays(file: bytes, base: nat, es: seq<Entry>, e: Endian)
    requires At(file, base, Section(es, e)) && GoodEntries(es)
    ensures HasTable(file, base, e) && ItemCount(file, base, e) == |es| && Get32(file, base, e) == |Section(es, e)|
  {
    SectionParts(file, base, es, e);
    GetSaved(file, base, Offset(es, |es|), e);
    GetSaved(file, base + 4, |es|, e);
  }

  /** The fields of NCSRM_SECTHEADER and of NCSRM_IDITEM lie where the library looks for them. */
  lemma SectionLayout(file: bytes, base: nat, es: seq<Entry>, e: Endian, k: nat)
    requires At(file, base, Section(es, e)) && GoodEntries(es) && k < |es|
    ensures base + 8 + 12 * |es| <= |file|
    ensures Get32(file, base, e) == |Section(es, e)| && Get32(file, base + 4, e) == |es|
    ensures var item := base + 8 + 12 * k;
      && Get32(file, item, e) == es[k].id && Get32(file, item + 4, e) == 0
      && At(file, base + Get32(file, item + 8, e), es[k].str)
  {
    hide Section, Get32, At, Offset, GoodEntries, Item;
    CountSays(file, base, es, e);
    ItemsSay(file, base, es, e, k);
    StringIsThere(file, base, es, e, k);
    ItemIsThere(file, base, es, e, k);
    NoFile(file, base + 8 + 12 * k, es[k].id, Offset(es, k), e);
  }

  lemma NoFile(file: bytes, at: nat, id: nat, offset: nat, e: Endian)
    requires At(file, at, Item(id, offset, e))
    ensures Get32(file, at + 4, e) == 0
  {
    hide Get32, Saved32, At;
    AtParts(file, at, Saved32(id, e) + Saved32(0, e), Saved32(offset, e));
    AtParts(file, at, Saved32(id, e), Saved32(0, e));
    GetSaved(file, at + 4, 0, e);
  }

  lemma StringIsThere(file: bytes, base: nat, es: seq<Entry>, e: Endian, k: nat)
    requires At(file, base, Section(es, e)) && k < |es|
    ensures At(file, base + Offset(es, k), es[k].str)
  {
    PaddedAtOffset(file, base, es, e, k);
    hide Section, Offset;
    AtParts(file, base + Offset(es, k), es[k].str, Zeros(FillLen(|es[k].str|) - |es[k].str|));
  }

  lemma {:induction false} CStringIs(file: bytes, offset: nat, str: bytes, i: nat)
    requires offset + |str| < |file| && file[offset + |str|] == 0 && i <= |str| && NulFree(str)
    requires forall k :: 0 <= k < |str| ==> file[offset + k] == str[k]
    ensures CStringAt(file, offset + i) == str[i..]
    decreases |str| - i
  {
    if i == |str| {
    } else {
      CStringIs(file, offset, str, i + 1);
      assert file[offset + i] == str[i];
      assert CStringAt(file, offset + i) == [str[i]] + CStringAt(file, offset + (i + 1));
    }
  }

  /** A recorded offset leads to the string, at least three NULs follow it, and the next string comes after those. */
  lemma StringAtOffset(file: bytes, base: nat, es: seq<Entry>, e: Endian, k: nat)
    requires At(file, base, Section(es, e)) && GoodEntries(es) && k < |es|
    ensures var offset := Offset(es, k);
      && offset % 4 == 0
      && At(file, base + offset, es[k].str + Zeros(3))
      && CStringAt(file, base + offset) == es[k].str
      && offset + |es[k].str| + 3 <= Offset(es, k + 1)
  {
    hide CStringAt, Padded, At, NulFree, Section, Offset;
    PaddedAtOffset(file, base, es, e, k);
    PaddedAt(file, base + Offset(es, k), es[k].str);
    OffsetIsAligned(es, k);
    OffsetsGrow(es, k, k + 1);
  }

  lemma PaddedAtOffset(file: bytes, base: nat, es: seq<Entry>, e: Endian, k: nat)
    requires At(file, base, Section(es, e)) && k < |es|
    ensures At(file, base + Offset(es, k), Padded(es[k].str))
  {
    hide Padded, At, Data, Section;
    SectionParts(file, base, es, e);
    DataHas(es, k, |es|);
    AtWithin(file, base + SECT_HEADER + |es| * ID_ITEM, Data(es, |es|), |Data(es, k)|, Padded(es[k].str));
  }

  lemma PaddedAt(file: bytes, at: nat, str: bytes)
    requires At(file, at, Padded(str)) && NulFree(str)
    ensures At(file, at, str + Zeros(3)) && CStringAt(file, at) == str
  {
    hide CStringAt, FillLen;
    var part := str + Zeros(3);
    assert Padded(str)[..|str| + 3] == part;
    AtSlice(file, at, Padded(str), 0, |str| + 3);
    AtParts(file, at, str, Zeros(3));
    assert file[at + |str| + 0] == Zeros(3)[0];
    CStringIs(file, at, str, 0);
  }

  lemma {:induction false} DataIsAligned(es: seq<Entry>, k: nat)
    requires k <= |es|
    ensures |Data(es, k)| % 4 == 0
  {
    if k == 0 {
    } else {
      DataIsAligned(es, k - 1);
      FoursAdd(|Data(es, k - 1)|, |Padded(es[k - 1].str)|);
    }
  }

  lemma OffsetIsAligned(es: seq<Entry>, k: nat)
    requires k <= |es|
    ensures Offset(es, k) % 4 == 0
  {
    hide Data;
    DataIsAligned(es, k);
    FoursAdd(SECT_HEADER + |es| * ID_ITEM, |Data(es, k)|) by { FoursOfItems(|es|); }
  }

  lemma FoursAdd(a: nat, b: nat)
    requires a % 4 == 0 && b % 4 == 0
    ensures (a + b) % 4 == 0
  {
  }

  lemma FoursOfItems(n: nat)
    ensures (SECT_HEADER + n * ID_ITEM) % 4 == 0
  {
    assert SECT_HEADER + n * ID_ITEM == 4 * (SECT_HEADER / 4 + n * (ID_ITEM / 4));
  }

  function Lookup(es: seq<Entry>, id: nat, k: nat): Option<bytes>
    requires k <= |es|
  {
    if k == 0 then None else if es[k - 1].id == id then Some(es[k - 1].str) else Lookup(es, id, k - 1)
  }

  lemma {:induction false} LookupFinds(es: seq<Entry>, id: nat, k: nat)
    requires k <= |es| && forall i, j :: 0 <= i < j < |es| ==> es[i].id < es[j].id
    ensures Lookup(es, id, k) == None <==> forall i :: 0 <= i < k ==> es[i].id != id
    ensures forall i :: 0 <= i < k && es[i].id == id ==> Lookup(es, id, k) == Some(es[i].str)
  {
    if k == 0 {
    } else {
      LookupFinds(es, id, k - 1);
    }
  }

  /** The name of the default renderer is the string of the first system id. */
  lemma RendererIsFirst(defRdr: bytes, pool: seq<Entry>)
    requires GoodEntries(Entries(defRdr, pool))
    ensures var es := Entries(defRdr, pool);
      && Lookup(es, 0x1_0001, |es|) == Some(defRdr)
      && forall i :: 0 <= i < |pool| ==> Lookup(es, pool[i].id, |es|) == Some(pool[i].str)
  {
    var es := Entries(defRdr, pool);
    LookupIs(es, 0, |es|);
    forall i | 0 <= i < |pool| ensures Lookup(es, pool[i].id, |es|) == Some(pool[i].str) {
      assert es[i + 1] == pool[i];
      LookupIs(es, i + 1, |es|);
    }
  }

  lemma {:induction false} LookupIs(es: seq<Entry>, i: nat, k: nat)
    requires i < k <= |es| && forall i, j :: 0 <= i < j < |es| ==> es[i].id < es[j].id
    ensures Lookup(es, es[i].id, k) == Some(es[i].str)
  {
    if i == k - 1 {
    } else {
      LookupIs(es, i, k - 1);
    }
  }

  /** The search in a written section finds the item with the id. */
  lemma ItemIsFound(file: bytes, base: nat, es: seq<Entry>, e: Endian, id: nat)
    requires At(file, base, Section(es, e)) && GoodEntries(es)
    ensures HasTable(file, base, e) && ItemCount(file, base, e) == |es|
    ensures match FindItem(file, base, id, e)
      case None => forall k :: 0 <= k < |es| ==> es[k].id != id
      case Some(k) => k < |es| && es[k].id == id
  {
    hide Section, Data, Get32, At, Ascends, Search;
    CountSays(file, base, es, e);
    forall k | 0 <= k < |es| ensures ItemId(file, base, k, e) == es[k].id { ItemsSay(file, base, es, e, k); }
    assert Ascends(file, base, e) by { ItemsAscend(file, base, es, e); }
    forall k | 0 <= k < |es| && FindItem(file, base, id, e) == None ensures es[k].id != id {
      SearchFinds(file, base, id, e, k);
    }
  }

  lemma ItemsAscend(file: bytes, base: nat, es: seq<Entry>, e: Endian)
    requires HasTable(file, base, e) && ItemCount(file, base, e) == |es| && GoodEntries(es)
    requires forall k :: 0 <= k < |es| ==> ItemId(file, base, k, e) == es[k].id
    ensures Ascends(file, base, e)
  {
    hide ItemId, ItemCount;
  }

  /** Whatever id is asked for, reading a written section gives what looking it up in the pool gives. */
  lemma StringsReadBack(file: bytes, base: nat, es: seq<Entry>, e: Endian, id: nat)
    requires At(file, base, Section(es, e)) && GoodEntries(es)
    ensures HasTable(file, base, e) && GetString(file, base, id, e) == Lookup(es, id, |es|)
  {
    hide Section, CStringAt, Data, Get32, At, FindItem;
    ItemIsFound(file, base, es, e, id);
    LookupFinds(es, id, |es|);
    match FindItem(file, base, id, e)
    case None =>
    case Some(k) =>
      ItemsSay(file, base, es, e, k);
      StringAtOffset(file, base, es, e, k);
  }
}
