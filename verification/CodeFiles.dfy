/**
 Merging one generated file into another (CodeCombinFiles in
 common/codecombin.cpp): when the outcome is again a file that the reader gives
 back, and what any number of runs keeps.
*/
module CodeFiles {

  import opened CodeTree
  import opened CodeMerge
  import opened CodeMergeTheorems
  import opened CodeGrammar
  import opened CodeReader
  import opened CodeRoundTrip
  import CodeDocument
  import opened Wrappers

  // ------------------------------------------------- sections stay well-formed

  lemma {:induction false} TextsAreGood(es: Elements)
    requires forall i :: 0 <= i < |es| ==> GoodElement(es[i])
    ensures forall t :: t in Texts(es) ==> GoodText(Text(t))
  {
    if es == [] {
    } else {
      TextsAreGood(es[1..]);
      assert GoodElement(es[0]);
      hide GoodText, GoodElement;
    }
  }

  /** Texts stay texts, good ones stay good, and what is no text stays as it is. */
  lemma {:induction false} ReplacedAt(es: Elements, texts: seq<Option<string>>, i: nat)
    requires i < |es| && forall t :: t in texts ==> GoodText(Text(t))
    ensures |ReplaceTexts(es, texts)| == |es|
    ensures var r := ReplaceTexts(es, texts)[i];
      && r.Text? == es[i].Text? && (es[i].Section? ==> r == es[i]) && (GoodText(es[i]) ==> GoodText(r))
  {
    hide GoodText;
    if es == [] || texts == [] {
    } else {
      var rest := if es[0].Text? then texts[1..] else texts;
      if i > 0 {
        ReplacedAt(es[1..], rest, i - 1);
      } else if |es| > 1 {
        ReplacedAt(es[1..], rest, 0);
      }
    }
  }

  lemma ReplaceIsGood(mine: Element, page: Element)
    requires mine.IsNamedAuto() && page.IsNamedAuto() && GoodElement(mine) && GoodElement(page)
    ensures GoodElement(Replace(mine, page))
  {
    GoodChildren(page);
    TextsAreGood(page.children);
    var texts := Texts(page.children);
    var es, r := mine.children, ReplaceTexts(mine.children, texts);
    GoodChildren(mine);
    hide Texts, ReplaceTexts, GoodText;
    ReplacedAt(es, texts, 0);
    forall i | 0 <= i < |es|
      ensures GoodElement(es[i]) && GoodElement(r[i]) && r[i].Text? == es[i].Text?
    {
      assert es[i] in es;
      ReplacedAt(es, texts, i);
    }
  }

  lemma NewlineStopsMarker(s: string, i: nat)
    requires i < |s| && i < 5 && IsNewline(s[i])
    ensures !StartsMarker(s)
  {
    assert 5 <= |s| ==> s[..5][i] == s[i];
  }

  lemma If0IsGood(t: string)
    requires WholeLines(t) && !StartsMarker(t)
    ensures WholeLines(IF0 + t) && !StartsMarker(IF0 + t)
  {
    var s, n := IF0 + t, |IF0|;
    forall i | 0 <= i < |s| - 1 && IsNewline(s[i]) ensures !StartsMarker(s[i + 1..]) {
      if i < n {
        assert i == 0 && s[1] == IF0[1] == '#';
        assert s[1..][..5][0] == s[1];
      } else {
        assert s[i + 1..] == t[i - n + 1..];
      }
    }
    NewlineStopsMarker(s, 0);
  }

  lemma EndifIsGood(t: string)
    requires WholeLines(t) && !StartsMarker(t)
    ensures WholeLines(t + ENDIF) && !StartsMarker(t + ENDIF)
  {
    var s, n := t + ENDIF, |t|;
    forall i | 0 <= i < |s| - 1 && IsNewline(s[i]) ensures !StartsMarker(s[i + 1..]) {
      if i >= n {
        assert i == n && s[n + 1] == ENDIF[1] == '#';
        assert |s[n + 1..]| >= 5 ==> s[n + 1..][..5][0] == s[n + 1];
      } else if n - 1 - i <= 5 {
        if i == n - 1 { NewlineStopsMarker(s[i + 1..], 0); } else { NewlineStopsMarker(s[i + 1..], n - 2 - i); }
      } else {
        assert s[i + 1..][..5] == t[i + 1..][..5];
      }
    }
    if n <= 5 { NewlineStopsMarker(s, n - 1); } else { assert s[..5] == t[..5]; }
  }

  lemma EndifAlone()
    ensures GoodText(Text(Some(ENDIF)))
  {
    var s := ENDIF;
    assert s[1..][..5][0] == s[1] == '#';
    NewlineStopsMarker(s, 0);
  }

  lemma WithIf0IsGood(es: Elements)
    requires GoodList(es) && es != [] && GoodText(es[0])
    ensures GoodList(WithIf0(es)) && GoodText(WithIf0(es)[0])
  {
    If0IsGood(es[0].text.value);
    var r := WithIf0(es);
    hide GoodText;
    assert forall i :: 0 < i < |r| ==> r[i] == es[i];
    assert GoodElement(r[0]);
  }

  lemma WithEndifIsGood(es: Elements)
    requires GoodList(es) && es != [] && GoodText(es[0])
    ensures GoodList(WithEndif(es)) && GoodText(WithEndif(es)[0])
  {
    var r, last := WithEndif(es), |es| - 1;
    assert GoodElement(es[last]);
    if es[last].Text? { EndifIsGood(es[last].text.value); } else { EndifAlone(); }
    assert GoodText(r[|r| - 1]);
    hide GoodText;
    assert forall i :: 0 <= i < last ==> r[i] == es[i];
    assert GoodElement(r[|r| - 1]);
  }

  lemma DisableIsGood(e: Element)
    requires e.IsNamedAuto() && GoodElement(e)
    ensures GoodElement(Disable(e))
  {
    GoodChildren(e);
    WithIf0IsGood(e.children);
    WithEndifIsGood(WithIf0(e.children));
    hide WithIf0, WithEndif, GoodText;
  }

  // ------------------------------------------------- documents stay readable

  lemma UpdateIsReadable(es: Elements, i: nat, e: Element)
    requires Readable(es) && i < |es| && es[i].Section? && e.Section? && GoodElement(e)
    ensures Readable(es[i := e])
  {
    assert i > 0 && es[i := e][0] == es[0];
    hide GoodText, KeepsFirstWord, GoodElement;
  }

  lemma InsertIsReadable(es: Elements, i: nat, e: Element)
    requires Readable(es) && 0 < i <= |es| && e.Section? && GoodElement(e)
    ensures Readable(InsertAt(es, i, e))
  {
    hide GoodText, KeepsFirstWord, GoodElement;
    var r := InsertAt(es, i, e);
    assert forall k :: 0 <= k < |r| ==> r[k] == if k < i then es[k] else if k == i then e else es[k - 1];
  }

  lemma DisabledIsReadable(es: Elements, known: set<string>)
    requires Readable(es)
    ensures Readable(DisableMissing(es, known))
    ensures var r := DisableMissing(es, known); r[|r| - 1].Text? == es[|es| - 1].Text?
  {
    var r := DisableMissing(es, known);
    forall i | 0 <= i < |es| ensures GoodElement(r[i]) && r[i].Text? == es[i].Text? {
      if es[i].IsNamedAuto() { DisableIsGood(es[i]); }
    }
  }

  // ------------------------------------------- what the merged document ends in

  predicate IsNew(target: Elements, e: Element) {
    e.IsNamedAuto() && e.name.value !in Names(target)
  }

  predicate LastAuto(es: Elements, i: nat) {
    forall k :: i < k < |es| ==> !es[k].IsAuto()
  }

  /**
   No section of the target follows that of the last source section before k
   that the target knows, or there is none.
  */
  predicate AtEnd(target: Elements, source: Elements, k: nat)
    requires k <= |source|
  {
    if k == 0 then true
    else
      var e := source[k - 1];
      if e.IsNamedAuto() && e.name.value in Names(target) then LastAuto(target, Find(target, e.name.value))
      else AtEnd(target, source, k - 1)
  }

  /** None of the first k source sections is new and goes to the end of the target. */
  predicate EndsInText(target: Elements, source: Elements, k: nat)
    requires k <= |source|
  {
    forall q :: 0 <= q < k && IsNew(target, source[q]) ==> !AtEnd(target, source, q)
  }

  /** The merge position is the end of the list. */
  predicate InsertsLast(m: Merge) {
    m.last == None || m.last.value + 1 == |m.es|
  }

  /** The sections of the target are followed by others as they were at the beginning. */
  ghost predicate SameAfter(target: Elements, es: Elements) {
    forall n :: n in Names(target) ==>
      n in Names(es) && (LastAuto(es, Find(es, n)) <==> LastAuto(target, Find(target, n)))
  }

  /** What holds after k steps of a merge. */
  ghost predicate Going(target: Elements, source: Elements, k: nat, m: Merge)
    requires k <= |source|
  {
    && InList(m) && Readable(m.es)
    && (if EndsInText(target, source, k)
        then m.es[|m.es| - 1].Text? && (AtEnd(target, source, k) <==> InsertsLast(m)) && SameAfter(target, m.es)
        else m.es[|m.es| - 1].Section?)
  }

  lemma StrideEnds(es: Elements, i: nat)
    requires i < |es|
    ensures Stride(es, i) + 1 == |es| <==> LastAuto(es, i)
  {
    var r := Stride(es, i);
    if r + 1 < |es| { assert es[r + 1].IsAuto(); }
  }

  lemma LastAutoAfterUpdate(es: Elements, i: nat, e: Element, n: string)
    requires i < |es| && es[i].IsNamedAuto() && e.IsNamedAuto() && e.name == es[i].name && n in Names(es)
    ensures n in Names(es[i := e]) && Find(es[i := e], n) == Find(es, n)
    ensures LastAuto(es[i := e], Find(es, n)) <==> LastAuto(es, Find(es, n))
  {
    FindAfterUpdate(es, i, e, n);
    var r := es[i := e];
    assert forall k :: 0 <= k < |es| ==> r[k].IsAuto() == es[k].IsAuto();
  }

  lemma LastAutoAfterInsert(es: Elements, i: nat, e: Element, n: string)
    requires i < |es| && es[i].IsAuto() && e.IsNamedAuto() && e.name.value !in Names(es) && n in Names(es)
    ensures var r := InsertAt(es, i, e);
      n in Names(r) && (LastAuto(r, Find(r, n)) <==> LastAuto(es, Find(es, n)))
  {
    FindAfterInsert(es, i, e, n);
    var r, f := InsertAt(es, i, e), Find(es, n);
    assert forall k :: 0 <= k < |r| ==> r[k] == if k < i then es[k] else if k == i then e else es[k - 1];
    if f >= i {
      if !LastAuto(es, f) {
        var k :| f < k < |es| && es[k].IsAuto();
        assert r[k + 1].IsAuto();
      }
    } else {
      assert es[i].IsAuto() && r[i].IsAuto();
    }
  }

  lemma SameAfterRefresh(target: Elements, es: Elements, i: nat, e: Element)
    requires SameAfter(target, es) && i < |es| && es[i].IsNamedAuto() && e.IsNamedAuto() && e.name == es[i].name
    ensures SameAfter(target, es[i := e])
  {
    forall n | n in Names(target)
      ensures n in Names(es[i := e])
        && (LastAuto(es[i := e], Find(es[i := e], n)) <==> LastAuto(target, Find(target, n)))
    {
      LastAutoAfterUpdate(es, i, e, n);
    }
  }

  lemma SameAfterInsertion(target: Elements, es: Elements, i: nat, e: Element)
    requires SameAfter(target, es) && i < |es| && es[i].IsAuto() && e.IsNamedAuto() && e.name.value !in Names(es)
    ensures SameAfter(target, InsertAt(es, i, e))
  {
    var r := InsertAt(es, i, e);
    forall n | n in Names(target)
      ensures n in Names(r) && (LastAuto(r, Find(r, n)) <==> LastAuto(target, Find(target, n)))
    {
      LastAutoAfterInsert(es, i, e, n);
    }
  }

  lemma OneStep(target: Elements, source: Elements, k: nat)
    requires k < |source|
    ensures EndsInText(target, source, k + 1) <==>
      EndsInText(target, source, k) && !(IsNew(target, source[k]) && AtEnd(target, source, k))
  {
  }

  /** Where the merge position is once a known section is refreshed. */
  lemma RefreshEnds(target: Elements, source: Elements, k: nat, es: Elements, mine: Element)
    requires k < |source| && SameAfter(target, es) && source[k].IsNamedAuto() && source[k].name.value in Names(target)
    requires mine.IsNamedAuto() && mine.name == source[k].name && mine.name.value in Names(es)
    ensures var i := Find(es, mine.name.value); var r := es[i := mine];
      SameAfter(target, r) && (AtEnd(target, source, k + 1) <==> Stride(r, i) + 1 == |r|)
  {
    var name := mine.name.value;
    var i := Find(es, name);
    SameAfterRefresh(target, es, i, mine);
    LastAutoAfterUpdate(es, i, mine, name);
    StrideEnds(es[i := mine], i);
    assert AtEnd(target, source, k + 1) == LastAuto(target, Find(target, name));
    hide Names, Find, Stride, LastAuto, AtEnd;
  }

  lemma RefreshIsReadable(es: Elements, i: nat, e: Element)
    requires Readable(es) && i < |es| && es[i].IsNamedAuto() && e.IsNamedAuto() && GoodElement(e)
    ensures Readable(es[i := Replace(es[i], e)])
    ensures es[i := Replace(es[i], e)][|es| - 1].Text? == es[|es| - 1].Text?
  {
    ElementIsGood(es, i);
    ReplaceIsGood(es[i], e);
    hide GoodElement;
    UpdateIsReadable(es, i, Replace(es[i], e));
  }

  lemma Refreshes(m: Merge, e: Element)
    requires InList(m) && e.IsNamedAuto() && e.name.value in Names(m.es)
    ensures var i := Find(m.es, e.name.value);
      var mine := Replace(m.es[i], e);
      && mine.IsNamedAuto() && mine.name == e.name
      && MergeOne(m, e) == Merge(m.es[i := mine], Some(Stride(m.es[i := mine], i)))
  {
  }

  /** A known section is refreshed. */
  lemma RefreshGoes(target: Elements, source: Elements, k: nat, m: Merge)
    requires k < |source| && Going(target, source, k, m) && GoodElement(source[k]) && source[k].IsNamedAuto()
    requires source[k].name.value in Names(m.es) && source[k].name.value in Names(target)
    ensures Going(target, source, k + 1, MergeOne(m, source[k]))
  {
    hide AtEnd, EndsInText, SameAfter, Names, Find, Readable, GoodElement, Replace, Stride, MergeOne;
    var e, es := source[k], m.es;
    var i := Find(es, e.name.value);
    Refreshes(m, e);
    OneStep(target, source, k);
    RefreshIsReadable(es, i, e);
    if EndsInText(target, source, k) { RefreshEnds(target, source, k, es, Replace(es[i], e)); }
  }

  /** Where the merge position is once a new section is inserted, not at the end. */
  lemma InsertEnds(target: Elements, es: Elements, i: nat, e: Element)
    requires SameAfter(target, es) && i < |es| && es[i].IsAuto() && e.IsNamedAuto() && e.name.value !in Names(es)
    ensures var r := InsertAt(es, i, e); SameAfter(target, r) && Stride(r, i) + 1 < |r|
  {
    var r := InsertAt(es, i, e);
    SameAfterInsertion(target, es, i, e);
    assert r[i + 1] == es[i];
    StrideEnds(r, i);
  }

  lemma Inserts(m: Merge, e: Element)
    requires InList(m) && e.IsNamedAuto() && e.name.value !in Names(m.es) && m.es != []
    ensures var i := Place(m, e.name.value);
      var r := InsertAt(m.es, i, e);
      && 0 < i && (i == |m.es| <==> InsertsLast(m)) && (i < |m.es| ==> m.last.Some? && i == m.last.value + 1)
      && r[|r| - 1] == (if i == |m.es| then e else m.es[|m.es| - 1])
      && MergeOne(m, e) == Merge(r, Some(Stride(r, i)))
  {
  }

  /** A new section is inserted. */
  lemma InsertGoes(target: Elements, source: Elements, k: nat, m: Merge)
    requires k < |source| && Going(target, source, k, m) && GoodElement(source[k]) && source[k].IsNamedAuto()
    requires source[k].name.value !in Names(m.es) && source[k].name.value !in Names(target)
    requires m.last.Some? && m.last.value + 1 < |m.es| ==> m.es[m.last.value + 1].IsAuto()
    ensures Going(target, source, k + 1, MergeOne(m, source[k]))
  {
    var e := source[k];
    var i, es := Place(m, e.name.value), m.es;
    assert AtEnd(target, source, k + 1) == AtEnd(target, source, k);
    hide AtEnd, EndsInText, SameAfter, Names, Find, Readable, GoodElement, Stride, InsertAt, Place, MergeOne;
    ReadableIsNotEmpty(es);
    Inserts(m, e);
    OneStep(target, source, k);
    InsertIsReadable(es, i, e);
    if i < |es| && EndsInText(target, source, k) { InsertEnds(target, es, i, e); }
  }

  lemma SkipGoes(target: Elements, source: Elements, k: nat, m: Merge)
    requires k < |source| && Going(target, source, k, m) && !source[k].IsNamedAuto()
    ensures Going(target, source, k + 1, m)
  {
    OneStep(target, source, k);
    assert AtEnd(target, source, k + 1) == AtEnd(target, source, k);
    hide AtEnd, EndsInText, Readable, SameAfter;
  }

  lemma StartGoes(target: Elements, source: Elements)
    requires GoodDocument(target)
    ensures Going(target, source, 0, Merge(target, None))
  {
    hide Readable;
  }

  lemma StepGoes(target: Elements, source: Elements, k: nat, m: Merge)
    requires k < |source| && GoodList(source) && DistinctNames(source)
    requires m == MergeUpTo(Merge(target, None), source, k) && Going(target, source, k, m)
    ensures Going(target, source, k + 1, if source[k].IsNamedAuto() then MergeOne(m, source[k]) else m)
  {
    hide Going, GoodList, GoodElement, DistinctNames, MergeOne, MergeUpTo, Names;
    ElementIsGood(source, k);
    NextIsAuto(target, source, k);
    if source[k].IsNamedAuto() {
      NotYetMerged(target, source, k);
      if source[k].name.value in Names(target) {
        RefreshGoes(target, source, k, m);
      } else {
        InsertGoes(target, source, k, m);
      }
    } else {
      SkipGoes(target, source, k, m);
    }
  }

  /** After every step of a merge the list is readable and ends as the condition says. */
  lemma {:induction false} MergeGoes(target: Elements, source: Elements, k: nat)
    requires GoodDocument(target) && GoodList(source) && DistinctNames(source) && k <= |source|
    ensures Going(target, source, k, MergeUpTo(Merge(target, None), source, k))
    decreases k
  {
    hide GoodDocument, GoodList, DistinctNames, Going, MergeOne;
    if k == 0 {
      StartGoes(target, source);
    } else {
      MergeGoes(target, source, k - 1);
      StepGoes(target, source, k - 1, MergeUpTo(Merge(target, None), source, k - 1));
    }
  }

  lemma ElementIsGood(es: Elements, i: nat)
    requires GoodList(es) && i < |es|
    ensures GoodElement(es[i])
  {
  }

  /** Before its step, a source section is in the list exactly when the target has it. */
  lemma NotYetMerged(target: Elements, source: Elements, k: nat)
    requires DistinctNames(source) && k < |source| && source[k].IsNamedAuto()
    ensures source[k].name.value in Names(MergeUpTo(Merge(target, None), source, k).es)
      <==> source[k].name.value in Names(target)
  {
    var n := source[k].name.value;
    MergeUpToSections(Merge(target, None), source, k, n);
    FindIs(source, n, k);
  }

  /** Behind the merge position comes a generated section or nothing. */
  lemma {:induction false} NextIsAuto(target: Elements, source: Elements, k: nat)
    requires k <= |source|
    ensures var m := MergeUpTo(Merge(target, None), source, k);
      m.last.Some? && m.last.value + 1 < |m.es| ==> m.es[m.last.value + 1].IsAuto()
    decreases k
  {
    if k == 0 {
    } else {
      NextIsAuto(target, source, k - 1);
    }
  }

  /**
   A merge of well-formed documents is readable, and it is well-formed again
   exactly when no new section goes to the end.
  */
  lemma CombineStaysGood(target: Elements, source: Elements)
    requires GoodDocument(target) && GoodList(source) && DistinctNames(source)
    ensures Readable(Combine(target, source))
    ensures GoodDocument(Combine(target, source)) <==> EndsInText(target, source, |source|)
  {
    MergeGoes(target, source, |source|);
    DisabledIsReadable(MergeUpTo(Merge(target, None), source, |source|).es, Names(source));
  }

  /** What a merged file is read as. */
  lemma CombinedLoads(target: Elements, source: Elements)
    requires GoodDocument(target) && GoodList(source) && DistinctNames(source)
    ensures Load(SaveAll(Combine(target, source)))
      == Some(LoadedAll(Combine(target, source)) + if EndsInText(target, source, |source|) then [] else [Text(None)])
  {
    CombineStaysGood(target, source);
    LoadSavedAny(Combine(target, source));
  }

  // -------------------------------------------------------------------- files

  /** A document in print; a name it was given goes first. */
  function Written(name: Option<string>, es: Elements): string {
    if name.Some? then "id=\"" + name.value + "\" " + SaveAll(es) else SaveAll(es)
  }

  function Read(file: Option<string>): Option<Elements> {
    if file.Some? then Load(file.value) else None
  }

  /** What is written to the target file, if anything; a file that is not there is None. */
  function Combined(fileFrom: Option<string>, fileTo: Option<string>): Option<string> {
    var source, target := Read(fileFrom), Read(fileTo);
    if source == None then None
    else if target == None then Some(Written(TakeHeader(fileFrom.value).name, source.value))
    else Some(Written(TakeHeader(fileTo.value).name, Combine(target.value, source.value)))
  }

  /** Every section that has to be copied has children: copying reads the first one. */
  ghost predicate Copies(fileFrom: Option<string>, fileTo: Option<string>) {
    var source, target := Read(fileFrom), Read(fileTo);
    source.Some? && target.Some? ==>
      forall e :: e in source.value && IsNew(target.value, e) ==> CodeDocument.Clonable(e)
  }

  method CodeCombinFiles(fileFrom: Option<string>, fileTo: Option<string>) returns (ret: int, written: Option<string>)
    requires Copies(fileFrom, fileTo)
    ensures written == Combined(fileFrom, fileTo)
    ensures ret == if written.Some? then 1 else 0
  {
    var fromName, toName: Option<string>, from, to: Option<Elements> := None, None, None, None;
    if fileFrom.Some? { fromName, from := LoadFromFile(fileFrom.value); }
    if fileTo.Some? { toName, to := LoadFromFile(fileTo.value); }
    if from == None { return 0, None; }
    if to == None {
      written := Some(Written(fromName, from.value));
    } else {
      var document := new CodeDocument.CompoundElement(to.value);
      document.Combin(from.value);
      written := Some(Written(toName, document.children));
    }
    ret := 1;
  }

  /** A target that is not there or cannot be read becomes the source; without a source nothing is written. */
  lemma NewTarget(source: Elements, to: Option<string>)
    requires Readable(source) && Read(to) == None
    ensures Combined(Some(SaveAll(source)), to) == Some(SaveAll(LoadedAll(source)))
    ensures Combined(None, to) == None
  {
    LoadSavedAny(source);
    UnnamedHeaderBack(source, "");
    assert SaveAll(source) + "" == SaveAll(source);
    hide Load, TakeHeader;
    if Added(source, false) == [] {
      assert LoadedAll(source) + [] == LoadedAll(source);
    } else {
      LastElement(LoadedAll(source), Text(None));
      assert SaveAll(LoadedAll(source)) + "" == SaveAll(LoadedAll(source));
    }
  }

  /** The name that a document was given is written where it is read. */
  lemma WrittenNameReads(name: string, es: Elements)
    requires GoodName(name)
    ensures TakeHeader(Written(Some(name), es)) == Header(Some(name), " " + SaveAll(es), false)
  {
    NamedHeaderBack(name, SaveAll(es));
  }

  // ------------------------------------------------- reading keeps what matters

  lemma {:induction false} LoadedIsGood(e: Element)
    requires GoodElement(e)
    ensures GoodElement(Loaded(e))
    decreases e
  {
    match e
    case Text(_) =>
    case Section(kind, name, children) =>
      forall i | 0 <= i < |children| ensures GoodElement(Loaded(children[i])) {
        assert children[i] in children;
        LoadedIsGood(children[i]);
      }
      LoadedSection(e);
      LoadedListIsGood(children);
      if name.Some? { BlankFirstIsGood(LoadedAll(children)); }
  }

  /** Lists whose elements are read as good ones. */
  lemma LoadedListIsGood(es: Elements)
    requires NoAdjacentTexts(es) && forall i :: 0 <= i < |es| ==> GoodElement(Loaded(es[i]))
    ensures GoodList(LoadedAll(es))
    ensures es != [] && es[0].Text? ==> LoadedAll(es)[0] == es[0]
  {
    hide GoodElement;
    assert forall i :: 0 <= i < |es| ==> LoadedAll(es)[i].Text? == es[i].Text?;
  }

  lemma BlankFirstIsGood(es: Elements)
    requires GoodList(es) && es != [] && GoodText(es[0])
    ensures GoodList(BlankFirst(es)) && GoodText(BlankFirst(es)[0])
  {
    BlankFirstGood(es);
    BlankKeepsText(es[0].text.value);
  }

  /** A document that was read is as well-formed as the one that was written. */
  lemma LoadedStaysGood(es: Elements)
    requires Readable(es)
    ensures Readable(LoadedAll(es)) && (GoodDocument(LoadedAll(es)) <==> GoodDocument(es))
  {
    forall i | 0 <= i < |es| ensures GoodElement(Loaded(es[i])) {
      LoadedIsGood(es[i]);
    }
    assert es[0].Text?;
    hide GoodText, KeepsFirstWord, GoodElement;
    LoadedListIsGood(es);
    assert GoodStart(LoadedAll(es), false);
    assert LoadedAll(es)[|es| - 1].Text? == es[|es| - 1].Text?;
  }

  lemma LoadedKinds(es: Elements, i: nat)
    requires i < |es|
    ensures LoadedAll(es)[i].IsAuto() == es[i].IsAuto() && LoadedAll(es)[i].IsNamedAuto() == es[i].IsNamedAuto()
    ensures es[i].Section? ==> LoadedAll(es)[i].Section? && LoadedAll(es)[i].name == es[i].name
  {
  }

  lemma LoadedNames(es: Elements)
    ensures Names(LoadedAll(es)) == Names(es) && (DistinctNames(es) ==> DistinctNames(LoadedAll(es)))
    ensures forall n :: Find(LoadedAll(es), n) == Find(es, n)
  {
    var r := LoadedAll(es);
    forall i | 0 <= i < |es|
      ensures r[i].IsAuto() == es[i].IsAuto() && (es[i].IsAuto() ==> r[i].name == es[i].name)
    {
      LoadedKinds(es, i);
    }
    hide LoadedAll;
    forall n ensures n in Names(r) <==> n in Names(es) {
      if n in Names(es) {
        var i :| 0 <= i < |es| && es[i].IsNamedAuto() && es[i].name.value == n;
        assert r[i].IsNamedAuto() && r[i].name.value == n;
      }
      if n in Names(r) {
        var i :| 0 <= i < |es| && r[i].IsNamedAuto() && r[i].name.value == n;
        assert es[i].IsNamedAuto() && es[i].name.value == n;
      }
    }
    forall n ensures Find(r, n) == Find(es, n) { FindIs(r, n, Find(es, n)); }
  }

  lemma LoadedLastAuto(es: Elements, i: nat)
    ensures LastAuto(LoadedAll(es), i) == LastAuto(es, i)
  {
    forall k | 0 <= k < |es| ensures LoadedAll(es)[k].IsAuto() == es[k].IsAuto() { LoadedKinds(es, k); }
  }

  /** The section is one of the target's, and no other follows it there. */
  predicate EndsTarget(target: Elements, e: Element) {
    e.IsNamedAuto() && e.name.value in Names(target) && LastAuto(target, Find(target, e.name.value))
  }

  predicate IsKnown(target: Elements, e: Element) {
    e.IsNamedAuto() && e.name.value in Names(target)
  }

  lemma AtEndStep(target: Elements, source: Elements, k: nat)
    requires 0 < k <= |source|
    ensures var e := source[k - 1];
      AtEnd(target, source, k) == if IsKnown(target, e) then EndsTarget(target, e) else AtEnd(target, source, k - 1)
  {
  }

  lemma LoadedEndsTarget(target: Elements, e: Element)
    ensures IsKnown(LoadedAll(target), Loaded(e)) == IsKnown(target, e)
    ensures EndsTarget(LoadedAll(target), Loaded(e)) == EndsTarget(target, e)
  {
    LoadedNames(target);
    if e.Section? { LoadedSection(e); }
    hide LoadedAll, Names, Find, LastAuto;
    if IsKnown(target, e) { LoadedLastAuto(target, Find(target, e.name.value)); }
  }

  lemma {:induction false} LoadedAtEnd(target: Elements, source: Elements, k: nat)
    requires k <= |source|
    ensures AtEnd(LoadedAll(target), LoadedAll(source), k) == AtEnd(target, source, k)
  {
    if k == 0 {
    } else {
      LoadedAtEnd(target, source, k - 1);
      LoadedEndsTarget(target, source[k - 1]);
      AtEndStep(target, source, k);
      AtEndStep(LoadedAll(target), LoadedAll(source), k);
      hide AtEnd, IsKnown, EndsTarget;
      assert LoadedAll(source)[k - 1] == Loaded(source[k - 1]);
    }
  }

  /** The condition on the ends of two documents is one on the documents that are written. */
  lemma LoadedEndsInText(target: Elements, source: Elements)
    ensures EndsInText(LoadedAll(target), LoadedAll(source), |source|) <==> EndsInText(target, source, |source|)
  {
    LoadedNames(target);
    forall q | 0 <= q < |source|
      ensures IsNew(LoadedAll(target), LoadedAll(source)[q]) == IsNew(target, source[q])
      ensures AtEnd(LoadedAll(target), LoadedAll(source), q) == AtEnd(target, source, q)
    {
      LoadedKinds(source, q);
      LoadedAtEnd(target, source, q);
    }
    hide LoadedAll, AtEnd, IsNew;
  }

  // --------------------------------------------------------------- runs

  /** The document after k runs. */
  function Documents(target: Elements, source: Elements, k: nat): Elements {
    if k == 0 then target else Combine(LoadedAll(Documents(target, source, k - 1)), LoadedAll(source))
  }

  /** The target file after k runs. */
  function Files(from: string, to: string, k: nat): string {
    if k == 0 then to
    else
      var file := Files(from, to, k - 1);
      var written := Combined(Some(from), Some(file));
      if written.Some? then written.value else file
  }

  /** When the target knows all names, a null text at its end stays there, whatever is merged in. */
  lemma {:induction false} MergeBeforeText(target: Elements, source: Elements, k: nat)
    requires k <= |source| && Names(source) <= Names(target)
    ensures MergeUpTo(Merge(target + [Text(None)], None), source, k).es ==
      MergeUpTo(Merge(target, None), source, k).es + [Text(None)]
    ensures Names(target) <= Names(MergeUpTo(Merge(target, None), source, k).es)
    decreases k
  {
    if k == 0 {
    } else {
      MergeBeforeText(target, source, k - 1);
      var m, m' := MergeUpTo(Merge(target, None), source, k - 1),
        MergeUpTo(Merge(target + [Text(None)], None), source, k - 1);
      var e := source[k - 1];
      if e.IsNamedAuto() {
        var n := e.name.value;
        assert n in Names(source);
        FindBeforeText(m.es, n);
        var i := Find(m.es, n);
        assert m'.es[i := Replace(m.es[i], e)] == m.es[i := Replace(m.es[i], e)] + [Text(None)];
        forall x | x in Names(target) ensures x in Names(MergeOne(m, e).es) { MergeOneSections(m, e, x); }
      }
    }
  }

  lemma FindBeforeText(es: Elements, n: string)
    ensures n in Names(es) <==> n in Names(es + [Text(None)])
    ensures n in Names(es) ==> Find(es + [Text(None)], n) == Find(es, n)
  {
    var all := es + [Text(None)];
    assert forall k :: 0 <= k < |es| ==> all[k] == es[k];
    if n in Names(es) { FindIs(all, n, Find(es, n)); }
    hide Names;
  }

  lemma CombineBeforeText(target: Elements, source: Elements)
    requires Names(source) <= Names(target)
    ensures Combine(target + [Text(None)], source) == Combine(target, source) + [Text(None)]
    ensures SaveAll(Combine(target + [Text(None)], source)) == SaveAll(Combine(target, source))
  {
    MergeBeforeText(target, source, |source|);
    LastElement(Combine(target, source), Text(None));
    hide SaveAll, MergeUpTo, Names;
    var es := MergeUpTo(Merge(target, None), source, |source|).es;
    assert DisableMissing(es + [Text(None)], Names(source)) == DisableMissing(es, Names(source)) + [Text(None)];
  }

  /** A null text at the end of the source is not merged. */
  lemma CombineWithoutText(target: Elements, source: Elements)
    ensures Combine(target, source + [Text(None)]) == Combine(target, source)
  {
    var all := source + [Text(None)];
    MergeUpToSame(target, source, all, |source|);
    forall n ensures n in Names(all) <==> n in Names(source) { FindBeforeText(source, n); }
    assert Names(all) == Names(source);
  }

  lemma {:induction false} MergeUpToSame(target: Elements, a: Elements, b: Elements, k: nat)
    requires k <= |a| <= |b| && a == b[..|a|]
    ensures MergeUpTo(Merge(target, None), a, k) == MergeUpTo(Merge(target, None), b, k)
    decreases k
  {
    if k == 0 {
    } else {
      MergeUpToSame(target, a, b, k - 1);
    }
  }

  /** When the target knows all names, the merged document ends as it did. */
  lemma {:induction false} KnownStaysReadable(target: Elements, source: Elements, k: nat)
    requires Readable(target) && GoodList(source) && k <= |source| && Names(source) <= Names(target)
    ensures var es := MergeUpTo(Merge(target, None), source, k).es;
      && Readable(es) && es[|es| - 1].Text? == target[|target| - 1].Text? && Names(target) <= Names(es)
    decreases k
  {
    hide Readable, GoodList, GoodElement;
    if k == 0 {
      assert target != [] by { ReadableIsNotEmpty(target); }
    } else {
      KnownStaysReadable(target, source, k - 1);
      var m, e := MergeUpTo(Merge(target, None), source, k - 1), source[k - 1];
      if e.IsNamedAuto() {
        assert e.name.value in Names(source);
        ElementIsGood(source, k - 1);
        Refreshes(m, e);
        RefreshIsReadable(m.es, Find(m.es, e.name.value), e);
        forall x | x in Names(target) ensures x in Names(MergeOne(m, e).es) { MergeOneSections(m, e, x); }
      }
    }
  }

  lemma ReadableIsNotEmpty(es: Elements)
    requires Readable(es)
    ensures es != []
  {
  }

  lemma KnownCombineIsReadable(target: Elements, source: Elements)
    requires Readable(target) && GoodList(source) && Names(source) <= Names(target)
    ensures Readable(Combine(target, source)) && (GoodDocument(Combine(target, source)) <==> GoodDocument(target))
  {
    KnownStaysReadable(target, source, |source|);
    DisabledIsReadable(MergeUpTo(Merge(target, None), source, |source|).es, Names(source));
    hide Readable, MergeUpTo, Names;
  }

  /** One run: null texts behind the ends of the two documents make no difference. */
  lemma OneRun(target: Elements, source: Elements)
    requires Readable(target) && Readable(source)
    requires GoodDocument(target) || Names(source) <= Names(target)
    ensures Combined(Some(SaveAll(source)), Some(SaveAll(target))) ==
      Some(SaveAll(Combine(LoadedAll(target), LoadedAll(source))))
  {
    LoadSavedAny(target);
    LoadSavedAny(source);
    UnnamedHeaderBack(target, "");
    assert SaveAll(target) + "" == SaveAll(target);
    LoadedNames(target);
    LoadedNames(source);
    var t, s := LoadedAll(target), LoadedAll(source);
    assert t + [] == t && s + [] == s;
    hide Load, TakeHeader, LoadedAll, Combine, SaveAll, Names, Readable;
    CombineWithoutText(t + Added(target, false), s);
    if target[|target| - 1].Section? { CombineBeforeText(t, s); }
  }

  lemma RunBringsNames(target: Elements, source: Elements)
    requires DistinctNames(source)
    ensures Names(source) <= Names(Combine(target, source))
  {
    forall n | n in Names(source) ensures n in Names(Combine(target, source)) { CombineSections(target, source, n); }
  }

  lemma GoodIsReadable(es: Elements)
    requires GoodDocument(es)
    ensures Readable(es)
  {
  }

  lemma FirstRun(target: Elements, source: Elements)
    requires GoodDocument(target) && Readable(source) && DistinctNames(source)
    ensures var r := Combine(LoadedAll(target), LoadedAll(source));
      Readable(r) && (GoodDocument(r) <==> EndsInText(target, source, |source|)) && Names(source) <= Names(r)
  {
    LoadedStaysGood(target);
    LoadedStaysGood(source);
    LoadedNames(source);
    LoadedEndsInText(target, source);
    CombineStaysGood(LoadedAll(target), LoadedAll(source));
    RunBringsNames(LoadedAll(target), LoadedAll(source));
  }

  lemma NextRun(target: Elements, source: Elements)
    requires Readable(target) && Readable(source) && DistinctNames(source) && Names(source) <= Names(target)
    ensures var r := Combine(LoadedAll(target), LoadedAll(source));
      Readable(r) && (GoodDocument(r) <==> GoodDocument(target)) && Names(source) <= Names(r)
  {
    LoadedStaysGood(target);
    LoadedStaysGood(source);
    LoadedNames(source);
    LoadedNames(target);
    KnownCombineIsReadable(LoadedAll(target), LoadedAll(source));
    RunBringsNames(LoadedAll(target), LoadedAll(source));
  }

  /**
   However often a file is merged into another, the target holds the document
   that the merges make, and is read back.  After any run it is well-formed
   exactly when the first one puts no new section at its end.
  */
  lemma {:induction false} RunsWriteDocuments(target: Elements, source: Elements, k: nat)
    requires GoodDocument(target) && Readable(source) && DistinctNames(source)
    ensures var r := Documents(target, source, k);
      && Files(SaveAll(source), SaveAll(target), k) == SaveAll(r)
      && Readable(r) && (GoodDocument(r) <==> k == 0 || EndsInText(target, source, |source|))
      && (k > 0 ==> Names(source) <= Names(r))
  {
    hide GoodDocument, Readable, DistinctNames, EndsInText, Names, Combined, Combine, SaveAll, LoadedAll;
    GoodIsReadable(target);
    if k == 0 {
    } else {
      RunsWriteDocuments(target, source, k - 1);
      var before := Documents(target, source, k - 1);
      OneRun(before, source);
      if k == 1 { FirstRun(target, source); } else { NextRun(before, source); }
    }
  }

  lemma {:induction false} LoadedNonTexts(es: Elements)
    ensures NonTexts(LoadedAll(es)) == LoadedAll(NonTexts(es))
  {
    if es == [] {
    } else {
      LoadedNonTexts(es[1..]);
      TailPrints(es);
      NonTextsCons(es[0], es[1..]);
      NonTextsCons(Loaded(es[0]), LoadedAll(es[1..]));
      var rest := NonTexts(es[1..]);
      LoadedConcat([es[0]], rest);
      assert LoadedAll([es[0]]) == [Loaded(es[0])] && [es[0]] + es[1..] == es;
      hide LoadedAll, NonTexts;
    }
  }

  lemma NonTextsCons(e: Element, es: Elements)
    ensures NonTexts([e] + es) == (if e.Text? then [] else [e]) + NonTexts(es)
  {
    assert ([e] + es)[1..] == es;
  }

  lemma BlankIsNoText(es: Elements)
    ensures NonTexts(BlankFirst(es)) == NonTexts(es)
  {
    if es != [] { assert BlankFirst(es)[1..] == es[1..]; }
  }

  lemma {:induction false} NonTextsAreSections(es: Elements)
    ensures forall e :: e in NonTexts(es) ==> e.Section?
  {
    if es == [] {
    } else {
      NonTextsAreSections(es[1..]);
    }
  }

  lemma LoadedBone(e: Element, known: set<string>)
    ensures Bone(Loaded(e), known) == LoadedAll(Bone(e, known))
  {
    if e.IsNamedAuto() && e.name.value in known {
      var user := NonTexts(e.children);
      LoadedSection(e);
      LoadedSection(e.(children := user));
      LoadedNonTexts(e.children);
      BlankIsNoText(LoadedAll(e.children));
      NonTextsAreSections(e.children);
      assert BlankFirst(LoadedAll(user)) == LoadedAll(user) by {
        if user != [] { assert user[0] in user && LoadedAll(user)[0] == Loaded(user[0]); }
      }
    }
  }

  /** Reading and leaving out the generated parts can change places. */
  lemma {:induction false} LoadedSkeleton(es: Elements, known: set<string>)
    ensures Skeleton(LoadedAll(es), known) == LoadedAll(Skeleton(es, known))
  {
    if es == [] {
    } else {
      LoadedSkeleton(es[1..], known);
      LoadedBone(es[0], known);
      TailPrints(es);
      LoadedConcat(Bone(es[0], known), Skeleton(es[1..], known));
      var r := LoadedAll(es);
      hide LoadedAll, Bone;
      assert r[0] == Loaded(es[0]) && r[1..] == LoadedAll(es[1..]);
    }
  }

  lemma LoadedConcat(a: Elements, b: Elements)
    ensures LoadedAll(a + b) == LoadedAll(a) + LoadedAll(b)
  {
  }

  /** Written and read k times. */
  function LoadedTimes(es: Elements, k: nat): (r: Elements)
    ensures |r| == |es|
  {
    if k == 0 then es else LoadedAll(LoadedTimes(es, k - 1))
  }

  /**
   However often anything is merged in, all user code of the target, in its
   generated sections too, is what was there, written and read as often.
  */
  lemma {:induction false} RunsKeepUserCode(target: Elements, source: Elements, k: nat)
    ensures var known := Names(target); var r := Documents(target, source, k);
      Skeleton(r, known) == LoadedTimes(Skeleton(target, known), k) && known <= Names(r)
  {
    hide Skeleton, LoadedAll, Combine, Names, Find;
    if k == 0 {
    } else {
      RunsKeepUserCode(target, source, k - 1);
      var before := Documents(target, source, k - 1);
      LoadedNames(before);
      CombineKeepsUserCode(LoadedAll(before), LoadedAll(source), Names(target));
      LoadedSkeleton(before, Names(target));
    }
  }

  function Blanks(k: nat): string {
    if k == 0 then "" else " " + Blanks(k - 1)
  }

  /** Each time, a named section gets one blank in front of its first text. */
  lemma {:induction false} BlanksGather(es: Elements, i: nat, k: nat)
    requires i < |es| && es[i].Section? && es[i].name.Some?
    requires es[i].children != [] && es[i].children[0].Text? && es[i].children[0].text.Some?
    ensures var e := LoadedTimes(es, k)[i];
      && e.Section? && e.name == es[i].name && |e.children| == |es[i].children|
      && e.children[0] == Text(Some(Blanks(k) + es[i].children[0].text.value))
  {
    if k == 0 {
      assert "" + es[i].children[0].text.value == es[i].children[0].text.value;
    } else {
      BlanksGather(es, i, k - 1);
      var e := LoadedTimes(es, k - 1)[i];
      LoadedSection(e);
      Associate(" ", Blanks(k - 1), es[i].children[0].text.value);
    }
  }
}
