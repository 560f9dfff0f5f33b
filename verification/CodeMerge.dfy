/**
 Merging freshly generated sections into an existing file (combin and its helpers
 in common/codecombin.cpp).  Sections nested in the list being merged are values;
 the list itself is a field that the methods reassign.
*/
module CodeMerge {

  import opened CodeTree
  import opened Wrappers

  type Elements = seq<Element>

  // ------------------------------------------------------ looking for children

  function Names(es: Elements): set<string> {
    set i | 0 <= i < |es| && es[i].IsNamedAuto() :: es[i].name.value
  }

  predicate IsNamed(e: Element, name: string) {
    e.IsAuto() && e.name == Some(name)
  }

  function FindFrom(es: Elements, name: string, i: nat): (r: nat)
    requires i <= |es|
    ensures i <= r <= |es|
    ensures r < |es| ==> IsNamed(es[r], name)
    ensures forall k :: i <= k < r ==> !IsNamed(es[k], name)
    decreases |es| - i
  {
    if i == |es| || IsNamed(es[i], name) then i else FindFrom(es, name, i + 1)
  }

  /** Index of the first generated section of that name, or the number of elements. */
  function Find(es: Elements, name: string): (r: nat)
    ensures r <= |es|
    ensures r < |es| ==> IsNamed(es[r], name)
    ensures forall i :: 0 <= i < r ==> !IsNamed(es[i], name)
    ensures r < |es| <==> name in Names(es)
  {
    FindFrom(es, name, 0)
  }

  ghost predicate DistinctNames(es: Elements) {
    forall i, j :: 0 <= i < j < |es| && es[i].IsNamedAuto() && es[j].IsNamedAuto() ==> es[i].name != es[j].name
  }

  // ------------------------------------------------- refreshing one section

  function Texts(es: Elements): (r: seq<Option<string>>) {
    if es == [] then []
    else (if es[0].Text? then [es[0].text] else []) + Texts(es[1..])
  }

  function SetText(e: Element, t: Option<string>): Element
    requires e.Text?
  {
    if t == None then e else Text(t)
  }

  function ReplaceTexts(es: Elements, texts: seq<Option<string>>): (r: Elements) {
    if es == [] || texts == [] then es
    else if es[0].Text? then [SetText(es[0], texts[0])] + ReplaceTexts(es[1..], texts[1..])
    else [es[0]] + ReplaceTexts(es[1..], texts)
  }

  function Replace(mine: Element, page: Element): (r: Element)
    requires mine.IsAuto() && page.IsAuto()
  {
    if mine.name == page.name then mine.(children := ReplaceTexts(mine.children, Texts(page.children))) else mine
  }

  // ------------------------------------------------- disabling one section

  const IF0 := "\n#if 0 //"
  const ENDIF := "\n#endif\n"

  function PutBefore(s: string, t: Option<string>): Option<string> {
    if t == None then Some(s) else Some(s + t.value)
  }

  function PutAfter(t: Option<string>, s: string): Option<string> {
    if t == None then Some(s) else Some(t.value + s)
  }

  function WithIf0(es: Elements): (r: Elements)
    ensures r != []
  {
    if es != [] && es[0].Text? then [Text(PutBefore(IF0, es[0].text))] + es[1..] else [Text(Some(IF0))] + es
  }

  function WithEndif(es: Elements): Elements
    requires es != []
  {
    var last := |es| - 1;
    if es[last].Text? then es[..last] + [Text(PutAfter(es[last].text, ENDIF))] else es + [Text(Some(ENDIF))]
  }

  function DisableChildren(es: Elements): Elements {
    WithEndif(WithIf0(es))
  }

  function Disable(e: Element): Element
    requires e.IsAuto()
  {
    e.(children := DisableChildren(e.children))
  }

  // ---------------------------------------------------------- one merge step

  /** The list so far and the element after which the next new section goes. */
  datatype Merge = Merge(es: Elements, last: Option<nat>)

  ghost predicate InList(m: Merge) {
    m.last.Some? ==> m.last.value < |m.es|
  }

  /** From i on to the last element before the next generated section. */
  function Stride(es: Elements, i: nat): (r: nat)
    requires i < |es|
    ensures i <= r < |es|
    ensures forall k :: i < k <= r ==> !es[k].IsAuto()
    ensures r + 1 < |es| ==> es[r + 1].IsAuto()
    decreases |es| - i
  {
    if i + 1 < |es| && !es[i + 1].IsAuto() then Stride(es, i + 1) else i
  }

  function InsertAt(es: Elements, i: nat, e: Element): Elements
    requires i <= |es|
  {
    es[..i] + [e] + es[i..]
  }

  /** Where the section of that name is, or where it goes when it is new. */
  function Place(m: Merge, name: string): (r: nat)
    requires InList(m)
    ensures r <= |m.es|
    ensures name in Names(m.es) ==> r < |m.es|
  {
    var i := Find(m.es, name);
    if i < |m.es| then i else if m.last == None then |m.es| else m.last.value + 1
  }

  function MergeOne(m: Merge, e: Element): (r: Merge)
    requires InList(m) && e.IsNamedAuto()
    ensures InList(r) && r.last.Some?
  {
    var name := e.name.value;
    var i := Place(m, name);
    var es := if name in Names(m.es) then m.es[i := Replace(m.es[i], e)] else InsertAt(m.es, i, e);
    Merge(es, Some(Stride(es, i)))
  }

  /** The first k children of the source merged in, one after the other. */
  function MergeUpTo(m: Merge, ce: Elements, k: nat): (r: Merge)
    requires InList(m) && k <= |ce|
    ensures InList(r)
    decreases k
  {
    if k == 0 then m
    else
      var r := MergeUpTo(m, ce, k - 1);
      if ce[k - 1].IsNamedAuto() then MergeOne(r, ce[k - 1]) else r
  }

  function DisableOne(e: Element, known: set<string>): Element {
    if e.IsNamedAuto() && e.name.value !in known then Disable(e) else e
  }

  function DisableMissing(es: Elements, known: set<string>): (r: Elements)
    ensures |r| == |es|
    ensures forall i :: 0 <= i < |es| ==> r[i] == DisableOne(es[i], known)
  {
    seq(|es|, i requires 0 <= i < |es| => DisableOne(es[i], known))
  }

  function Combine(target: Elements, source: Elements): Elements {
    DisableMissing(MergeUpTo(Merge(target, None), source, |source|).es, Names(source))
  }

  /** A section of another name is not refreshed. */
  lemma ReplaceOther(mine: Element, page: Element)
    requires mine.IsAuto() && page.IsAuto() && mine.name != page.name
    ensures Replace(mine, page) == mine
  {
  }

  // ------------------------------------------------- what a refresh means

  function NonTexts(es: Elements): Elements {
    if es == [] then [] else (if es[0].Text? then [] else [es[0]]) + NonTexts(es[1..])
  }

  /** The k-th text becomes the k-th new text; a missing or null one leaves the old text. */
  lemma {:induction false} ReplaceTextAt(es: Elements, texts: seq<Option<string>>, k: nat)
    ensures |Texts(ReplaceTexts(es, texts))| == |Texts(es)|
    ensures k < |Texts(es)| ==>
      Texts(ReplaceTexts(es, texts))[k] == if k < |texts| && texts[k] != None then texts[k] else Texts(es)[k]
  {
    if es == [] || texts == [] {
    } else {
      if !es[0].Text? {
        ReplaceTextAt(es[1..], texts, k);
      } else {
        ReplaceTextAt(es[1..], texts[1..], if k > 0 then k - 1 else 0);
      }
    }
  }

  /** Everything that is not a text stays what it is and where it is. */
  lemma {:induction false} ReplaceTextsKeeps(es: Elements, texts: seq<Option<string>>)
    ensures var r := ReplaceTexts(es, texts);
      && |r| == |es|
      && forall i :: 0 <= i < |es| ==> r[i].Text? == es[i].Text? && (!es[i].Text? ==> r[i] == es[i])
    ensures NonTexts(ReplaceTexts(es, texts)) == NonTexts(es)
  {
    if es == [] || texts == [] {
    } else {
      ReplaceTextsKeeps(es[1..], if es[0].Text? then texts[1..] else texts);
    }
  }

  lemma {:induction false} ReplaceTextsTwice(es: Elements, texts: seq<Option<string>>)
    ensures ReplaceTexts(ReplaceTexts(es, texts), texts) == ReplaceTexts(es, texts)
  {
    if es == [] || texts == [] {
    } else {
      ReplaceTextsTwice(es[1..], if es[0].Text? then texts[1..] else texts);
    }
  }

  lemma {:induction false} ReplaceTextsOwn(es: Elements)
    ensures ReplaceTexts(es, Texts(es)) == es
  {
    if es == [] {
    } else {
      ReplaceTextsOwn(es[1..]);
      if es[0].Text? {
        assert Texts(es)[1..] == Texts(es[1..]);
      } else {
        assert Texts(es) == Texts(es[1..]);
      }
      assert es == [es[0]] + es[1..];
    }
  }

  lemma NonTextsConcat(a: Elements, b: Elements)
    ensures NonTexts(a + b) == NonTexts(a) + NonTexts(b)
  {
    if a == [] {
      assert a + b == b;
    } else {
      assert (a + b)[1..] == a[1..] + b;
      NonTextsConcat(a[1..], b);
    }
  }

  lemma LastElement(es: Elements, e: Element)
    ensures SaveAll(es + [e]) == SaveAll(es) + Save(e)
    ensures NonTexts(es + [e]) == NonTexts(es) + if e.Text? then [] else [e]
  {
    SaveAllConcat(es, [e]);
    NonTextsConcat(es, [e]);
    assert [e][1..] == [];
    assert SaveAll([e]) == Save(e) && NonTexts([e]) == if e.Text? then [] else [e];
  }

  lemma FirstElement(e: Element, es: Elements)
    ensures SaveAll([e] + es) == Save(e) + SaveAll(es)
    ensures NonTexts([e] + es) == (if e.Text? then [] else [e]) + NonTexts(es)
  {
    assert ([e] + es)[1..] == es;
  }

  lemma WithIf0Meaning(es: Elements)
    ensures SaveAll(WithIf0(es)) == IF0 + SaveAll(es) && NonTexts(WithIf0(es)) == NonTexts(es)
  {
    if es != [] && es[0].Text? {
      var first := Text(PutBefore(IF0, es[0].text));
      FirstElement(first, es[1..]);
      FirstElement(es[0], es[1..]);
      assert [es[0]] + es[1..] == es && Save(first) == IF0 + Save(es[0]);
      hide SaveAll, NonTexts;
    } else {
      FirstElement(Text(Some(IF0)), es);
    }
  }

  lemma WithEndifMeaning(es: Elements)
    requires es != []
    ensures SaveAll(WithEndif(es)) == SaveAll(es) + ENDIF && NonTexts(WithEndif(es)) == NonTexts(es)
  {
    var last := |es| - 1;
    if es[last].Text? {
      var front, joined := es[..last], Text(PutAfter(es[last].text, ENDIF));
      assert es == front + [es[last]];
      LastElement(front, es[last]);
      LastElement(front, joined);
      assert Save(joined) == Save(es[last]) + ENDIF;
      assert WithEndif(es) == front + [joined];
    } else {
      LastElement(es, Text(Some(ENDIF)));
    }
  }

  /** A disabled section prints as before between the two directives, and nothing but texts changes in it. */
  lemma DisableMeaning(es: Elements)
    ensures SaveAll(DisableChildren(es)) == IF0 + SaveAll(es) + ENDIF
    ensures NonTexts(DisableChildren(es)) == NonTexts(es)
  {
    WithIf0Meaning(es);
    WithEndifMeaning(WithIf0(es));
  }

  // ------------------------------------------------ user code is not touched

  /** What a merge must not touch in one child: everything, but only the user part of a generated section it knows. */
  function Bone(e: Element, known: set<string>): Elements {
    if !e.IsNamedAuto() then [e]
    else if e.name.value in known then [e.(children := NonTexts(e.children))]
    else []
  }

  function Skeleton(es: Elements, known: set<string>): Elements {
    if es == [] then [] else Bone(es[0], known) + Skeleton(es[1..], known)
  }

  lemma SkeletonConcat(a: Elements, b: Elements, known: set<string>)
    ensures Skeleton(a + b, known) == Skeleton(a, known) + Skeleton(b, known)
  {
    if a == [] {
      assert a + b == b;
    } else {
      assert (a + b)[1..] == a[1..] + b;
      SkeletonConcat(a[1..], b, known);
    }
  }

  lemma SkeletonAround(a: Elements, e: Element, b: Elements, known: set<string>)
    ensures Skeleton(a + [e] + b, known) == Skeleton(a, known) + Bone(e, known) + Skeleton(b, known)
  {
    SkeletonConcat(a + [e], b, known);
    SkeletonConcat(a, [e], known);
    assert [e][1..] == [];
    assert Skeleton([e], known) == Bone(e, known);
  }

  lemma SkeletonUpdate(es: Elements, i: nat, e: Element, known: set<string>)
    requires i < |es| && Bone(e, known) == Bone(es[i], known)
    ensures Skeleton(es[i := e], known) == Skeleton(es, known)
  {
    assert es == es[..i] + [es[i]] + es[i + 1..];
    assert es[i := e] == es[..i] + [e] + es[i + 1..];
    SkeletonAround(es[..i], es[i], es[i + 1..], known);
    SkeletonAround(es[..i], e, es[i + 1..], known);
  }

  lemma SkeletonInsert(es: Elements, i: nat, e: Element, known: set<string>)
    requires i <= |es| && Bone(e, known) == []
    ensures Skeleton(InsertAt(es, i, e), known) == Skeleton(es, known)
  {
    assert es == es[..i] + es[i..];
    SkeletonConcat(es[..i], es[i..], known);
    SkeletonAround(es[..i], e, es[i..], known);
  }

  lemma {:induction false} SkeletonPointwise(a: Elements, b: Elements, known: set<string>)
    requires |a| == |b| && forall i :: 0 <= i < |a| ==> Bone(a[i], known) == Bone(b[i], known)
    ensures Skeleton(a, known) == Skeleton(b, known)
  {
    if a == [] {
    } else {
      SkeletonPointwise(a[1..], b[1..], known);
    }
  }

  // ------------------------------------------------------- sections by name

  function SectionOf(es: Elements, name: string): (r: Element)
    requires name in Names(es)
    ensures IsNamed(r, name)
  {
    es[Find(es, name)]
  }

  lemma FindIs(es: Elements, name: string, i: nat)
    requires i <= |es| && (i < |es| ==> IsNamed(es[i], name))
    requires forall k :: 0 <= k < i ==> !IsNamed(es[k], name)
    ensures Find(es, name) == i
  {
  }

  lemma FindAfterUpdate(es: Elements, i: nat, e: Element, n: string)
    requires i < |es| && es[i].IsNamedAuto() && e.IsNamedAuto() && e.name == es[i].name
    ensures Find(es[i := e], n) == Find(es, n)
  {
    FindIs(es[i := e], n, Find(es, n));
  }

  lemma FindAfterInsert(es: Elements, i: nat, e: Element, n: string)
    requires i <= |es| && e.IsNamedAuto() && e.name.value !in Names(es)
    ensures Find(InsertAt(es, i, e), n) ==
      if n == e.name.value then i else if Find(es, n) < i then Find(es, n) else Find(es, n) + 1
  {
    var r, f := InsertAt(es, i, e), Find(es, n);
    forall k | 0 <= k < |r| ensures r[k] == if k < i then es[k] else if k == i then e else es[k - 1] {}
    if n == e.name.value {
      assert f == |es|;
      FindIs(r, n, i);
    } else {
      FindIs(r, n, if f < i then f else f + 1);
    }
  }

  lemma SectionAfterUpdate(es: Elements, e: Element, n: string)
    requires e.IsNamedAuto() && e.name.value in Names(es)
    ensures var i := Find(es, e.name.value); var r := es[i := e];
      && (n in Names(r) <==> n in Names(es))
      && (n in Names(r) ==> SectionOf(r, n) == if n == e.name.value then e else SectionOf(es, n))
  {
    var i := Find(es, e.name.value);
    FindAfterUpdate(es, i, e, n);
  }

  lemma SectionAfterInsert(es: Elements, i: nat, e: Element, n: string)
    requires i <= |es| && e.IsNamedAuto() && e.name.value !in Names(es)
    ensures var r := InsertAt(es, i, e);
      && (n in Names(r) <==> n in Names(es) || n == e.name.value)
      && (n in Names(r) ==> SectionOf(r, n) == if n == e.name.value then e else SectionOf(es, n))
  {
    FindAfterInsert(es, i, e, n);
    var r, f := InsertAt(es, i, e), Find(es, n);
    if n != e.name.value && f < |es| {
      assert r[if f < i then f else f + 1] == es[f];
    }
  }

  /** One step: the section takes the source text or is inserted, and no other section changes. */
  lemma MergeOneSections(m: Merge, e: Element, n: string)
    requires InList(m) && e.IsNamedAuto()
    ensures var r := MergeOne(m, e).es; var name := e.name.value;
      && (n in Names(r) <==> n in Names(m.es) || n == name)
      && (n in Names(r) && n != name ==> SectionOf(r, n) == SectionOf(m.es, n))
      && (n == name ==> SectionOf(r, n) == (if n in Names(m.es) then Replace(SectionOf(m.es, n), e) else e))
  {
    var name := e.name.value;
    if name in Names(m.es) {
      SectionAfterUpdate(m.es, Replace(SectionOf(m.es, name), e), n);
    } else {
      SectionAfterInsert(m.es, Place(m, name), e, n);
    }
  }

  /** The section of name n once the first k source children are merged in. */
  ghost function Merged(target: Elements, ce: Elements, k: nat, n: string): Element
    requires k <= |ce| && (n in Names(target) || Find(ce, n) < k)
  {
    var f := Find(ce, n);
    if k <= f then SectionOf(target, n)
    else if n in Names(target) then Replace(SectionOf(target, n), ce[f])
    else ce[f]
  }

  lemma {:induction false} MergeUpToSections(m: Merge, ce: Elements, k: nat, n: string)
    requires InList(m) && DistinctNames(ce) && k <= |ce|
    ensures var r := MergeUpTo(m, ce, k).es;
      && (n in Names(r) <==> n in Names(m.es) || Find(ce, n) < k)
      && (n in Names(r) ==> SectionOf(r, n) == Merged(m.es, ce, k, n))
    decreases k
  {
    if k == 0 {
    } else {
      MergeUpToSections(m, ce, k - 1, n);
      var e := ce[k - 1];
      if e.IsNamedAuto() {
        MergeOneSections(MergeUpTo(m, ce, k - 1), e, n);
        if e.name.value == n { FindIs(ce, n, k - 1); }
      }
    }
  }
}
