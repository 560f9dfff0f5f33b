/**
 What a merge of generated code keeps, brings in, disables and orders, and when
 merging the same source again changes nothing.
*/
module CodeMergeTheorems {

  import opened CodeTree
  import opened CodeMerge
  import opened Wrappers

  // --------------------------------------------------------- user code is kept

  lemma MergeOneSkeleton(m: Merge, e: Element, known: set<string>)
    requires InList(m) && e.IsNamedAuto() && known <= Names(m.es)
    ensures Skeleton(MergeOne(m, e).es, known) == Skeleton(m.es, known)
    ensures known <= Names(MergeOne(m, e).es)
  {
    var name := e.name.value;
    var i := Place(m, name);
    if name in Names(m.es) {
      ReplaceTextsKeeps(m.es[i].children, Texts(e.children));
      SkeletonUpdate(m.es, i, Replace(m.es[i], e), known);
    } else {
      SkeletonInsert(m.es, i, e, known);
    }
    forall n | n in known ensures n in Names(MergeOne(m, e).es) {
      MergeOneSections(m, e, n);
    }
  }

  lemma {:induction false} MergeUpToSkeleton(m: Merge, ce: Elements, k: nat, known: set<string>)
    requires InList(m) && known <= Names(m.es) && k <= |ce|
    ensures Skeleton(MergeUpTo(m, ce, k).es, known) == Skeleton(m.es, known)
    ensures known <= Names(MergeUpTo(m, ce, k).es)
    decreases k
  {
    if k == 0 {
    } else {
      MergeUpToSkeleton(m, ce, k - 1, known);
      if ce[k - 1].IsNamedAuto() { MergeOneSkeleton(MergeUpTo(m, ce, k - 1), ce[k - 1], known); }
    }
  }

  lemma DisableOneBone(e: Element, known: set<string>, kept: set<string>)
    ensures Bone(DisableOne(e, known), kept) == Bone(e, kept)
  {
    if e.Section? { DisableMeaning(e.children); }
  }

  /**
   Whatever is merged in, the target's own children stay in order; all that is not
   generated text in them stays word for word.  The names that are followed may be
   all of the target's or some of them.
  */
  lemma CombineKeepsUserCode(target: Elements, source: Elements, known: set<string>)
    requires known <= Names(target)
    ensures Skeleton(Combine(target, source), known) == Skeleton(target, known)
    ensures known <= Names(Combine(target, source))
  {
    var es := MergeUpTo(Merge(target, None), source, |source|).es;
    MergeUpToSkeleton(Merge(target, None), source, |source|, known);
    var r := DisableMissing(es, Names(source));
    forall i | 0 <= i < |es| ensures Bone(r[i], known) == Bone(es[i], known) {
      DisableOneBone(es[i], Names(source), known);
    }
    SkeletonPointwise(r, es, known);
    forall n | n in known ensures n in Names(r) {
      DisableMissingSections(es, Names(source), n);
    }
  }

  // --------------------------------------------------- every section by name

  lemma DisableMissingSections(es: Elements, known: set<string>, n: string)
    ensures n in Names(DisableMissing(es, known)) <==> n in Names(es)
    ensures n in Names(es) ==> SectionOf(DisableMissing(es, known), n) == DisableOne(SectionOf(es, n), known)
  {
    FindIs(DisableMissing(es, known), n, Find(es, n));
  }

  /**
   The named sections after a merge: the source's are there with its texts, the
   target's own ones that the source lacks are disabled, and there are no
   others.
  */
  lemma CombineSections(target: Elements, source: Elements, n: string)
    requires DistinctNames(source)
    ensures var r := Combine(target, source);
      && (n in Names(r) <==> n in Names(target) || n in Names(source))
      && (n in Names(source) && n !in Names(target) ==> SectionOf(r, n) == SectionOf(source, n))
      && (n in Names(source) && n in Names(target) ==>
            SectionOf(r, n) == Replace(SectionOf(target, n), SectionOf(source, n)))
      && (n !in Names(source) && n in Names(target) ==> SectionOf(r, n) == Disable(SectionOf(target, n)))
  {
    MergeUpToSections(Merge(target, None), source, |source|, n);
    DisableMissingSections(MergeUpTo(Merge(target, None), source, |source|).es, Names(source), n);
  }

  /**
   The k-th text of every source section is the k-th text of the section of that
   name, as far as that one has texts; null texts are passed over.
  */
  lemma CombineCarriesTexts(target: Elements, source: Elements, n: string, k: nat)
    requires DistinctNames(source) && n in Names(source)
    requires k < |Texts(SectionOf(source, n).children)| && Texts(SectionOf(source, n).children)[k] != None
    ensures n in Names(Combine(target, source))
    ensures var texts := Texts(SectionOf(Combine(target, source), n).children);
      && |texts| == |Texts((if n in Names(target) then SectionOf(target, n) else SectionOf(source, n)).children)|
      && (k < |texts| ==> texts[k] == Texts(SectionOf(source, n).children)[k])
  {
    CombineSections(target, source, n);
    if n in Names(target) {
      ReplaceTextAt(SectionOf(target, n).children, Texts(SectionOf(source, n).children), k);
    }
  }

  /**
   A target section prints inside #if 0 ... #endif after the merge exactly when
   the source has no section of its name; otherwise its user part and its length
   in children are unchanged.
  */
  lemma CombineDisables(target: Elements, source: Elements, n: string)
    requires DistinctNames(source) && n in Names(target)
    ensures n in Names(Combine(target, source))
    ensures var was, now := SectionOf(target, n).children, SectionOf(Combine(target, source), n).children;
      if n in Names(source) then |now| == |was|
      else SaveAll(now) == IF0 + SaveAll(was) + ENDIF
    ensures NonTexts(SectionOf(Combine(target, source), n).children) == NonTexts(SectionOf(target, n).children)
  {
    CombineSections(target, source, n);
    if n in Names(source) {
      ReplaceTextsKeeps(SectionOf(target, n).children, Texts(SectionOf(source, n).children));
    } else {
      DisableMeaning(SectionOf(target, n).children);
    }
  }

  // ------------------------------------------------------------ merging again

  /** Merging e into es would change nothing. */
  ghost predicate Settled(es: Elements, e: Element) {
    && e.IsNamedAuto() && e.name.value in Names(es)
    && Replace(SectionOf(es, e.name.value), e) == SectionOf(es, e.name.value)
  }

  lemma {:induction false} MergeUpToSettled(es: Elements, ce: Elements, k: nat)
    requires k <= |ce| && forall i :: 0 <= i < k && ce[i].IsNamedAuto() ==> Settled(es, ce[i])
    ensures MergeUpTo(Merge(es, None), ce, k).es == es
    decreases k
  {
    if k == 0 {
    } else {
      MergeUpToSettled(es, ce, k - 1);
    }
  }

  lemma SourceSettled(target: Elements, source: Elements, k: nat)
    requires DistinctNames(source) && k < |source| && source[k].IsNamedAuto()
    ensures Settled(Combine(target, source), source[k])
  {
    var n := source[k].name.value;
    FindIs(source, n, k);
    CombineSections(target, source, n);
    if n in Names(target) {
      ReplaceTextsTwice(SectionOf(target, n).children, Texts(source[k].children));
    } else {
      ReplaceTextsOwn(source[k].children);
    }
  }

  lemma CombineSettles(target: Elements, source: Elements)
    requires DistinctNames(source) && Names(target) <= Names(source)
    ensures Combine(Combine(target, source), source) == Combine(target, source)
  {
    var r := Combine(target, source);
    forall k | 0 <= k < |source| && source[k].IsNamedAuto() ensures Settled(r, source[k]) {
      SourceSettled(target, source, k);
    }
    MergeUpToSettled(r, source, |source|);
    forall i | 0 <= i < |r| ensures DisableOne(r[i], Names(source)) == r[i] {
      if r[i].IsNamedAuto() {
        assert r[i].name.value in Names(r);
        CombineSections(target, source, r[i].name.value);
      }
    }
  }

  lemma CombineGrows(target: Elements, source: Elements, n: string)
    requires DistinctNames(source) && n in Names(target) && n !in Names(source)
    ensures Combine(Combine(target, source), source) != Combine(target, source)
  {
    var r := Combine(target, source);
    CombineSections(target, source, n);
    CombineSections(r, source, n);
    DisableMeaning(SectionOf(r, n).children);
    assert |SaveAll(DisableChildren(SectionOf(r, n).children))| > |SaveAll(SectionOf(r, n).children)|;
  }

  /**
   Merging the same source a second time changes nothing exactly when the target
   has no section that the source lacks.
  */
  lemma CombineTwice(target: Elements, source: Elements)
    requires DistinctNames(source)
    ensures Combine(Combine(target, source), source) == Combine(target, source) <==> Names(target) <= Names(source)
  {
    if Names(target) <= Names(source) {
      CombineSettles(target, source);
    } else {
      var n :| n in Names(target) && n !in Names(source);
      CombineGrows(target, source, n);
    }
  }

  // ---------------------------------------------------- where new sections go

  /** The section of name y comes after that of name x with no generated section between them. */
  ghost predicate NextTo(es: Elements, x: string, y: string) {
    exists i, j :: 0 <= i < j < |es| && Adjacent(es, x, y, i, j)
  }

  ghost predicate Adjacent(es: Elements, x: string, y: string, i: int, j: int) {
    && 0 <= i < j < |es|
    && IsNamed(es[i], x) && IsNamed(es[j], y)
    && forall k :: i < k < j ==> !es[k].IsAuto()
  }

  /** The last section handled is at b, and the merge position is the end of what belongs to it. */
  ghost predicate Based(m: Merge, name: string) {
    && InList(m) && m.last.Some?
    && (m.last.value + 1 < |m.es| ==> m.es[m.last.value + 1].IsAuto())
    && exists b: nat :: BasedAt(m, name, b)
  }

  ghost predicate BasedAt(m: Merge, name: string, b: nat) {
    && m.last.Some? && b <= m.last.value < |m.es|
    && IsNamed(m.es[b], name)
    && forall k :: b < k <= m.last.value ==> !m.es[k].IsAuto()
  }

  lemma MergeOneBased(m: Merge, e: Element)
    requires InList(m) && e.IsNamedAuto()
    ensures Based(MergeOne(m, e), e.name.value)
  {
    var r := MergeOne(m, e);
    assert BasedAt(r, e.name.value, Place(m, e.name.value));
  }

  lemma NewSectionIsNext(m: Merge, x: string, e: Element)
    requires e.IsNamedAuto() && e.name.value !in Names(m.es)
    requires Based(m, x)
    ensures NextTo(MergeOne(m, e).es, x, e.name.value)
  {
    var b: nat :| BasedAt(m, x, b);
    var r := MergeOne(m, e).es;
    var p := m.last.value + 1;
    assert forall k :: 0 <= k < p ==> r[k] == m.es[k];
    assert Adjacent(r, x, e.name.value, b, p);
  }

  lemma PlaceOutside(m: Merge, prev: string, x: string, y: string, i: int, j: int)
    requires Based(m, prev) && prev != x && Adjacent(m.es, x, y, i, j)
    ensures m.last.value < i || j <= m.last.value
  {
    var b: nat :| BasedAt(m, prev, b);
    var last := m.last.value;
    assert m.es[i].IsAuto() && m.es[b].IsAuto() && m.es[i].name != m.es[b].name;
  }

  lemma AdjacentAfterUpdate(es: Elements, x: string, y: string, i: int, j: int, p: nat, e: Element)
    requires Adjacent(es, x, y, i, j) && p < |es|
    requires es[p].IsNamedAuto() && e.IsNamedAuto() && e.name == es[p].name
    ensures Adjacent(es[p := e], x, y, i, j)
  {
  }

  lemma AdjacentAfterInsert(es: Elements, x: string, y: string, i: int, j: int, p: nat, e: Element)
    requires Adjacent(es, x, y, i, j) && p <= |es| && (p <= i || j < p)
    ensures if p <= i then Adjacent(InsertAt(es, p, e), x, y, i + 1, j + 1)
      else Adjacent(InsertAt(es, p, e), x, y, i, j)
  {
    var r := InsertAt(es, p, e);
    assert forall k :: 0 <= k < p ==> r[k] == es[k];
    assert forall k :: p < k < |r| ==> r[k] == es[k - 1];
  }

  lemma NextToSurvives(m: Merge, prev: string, e: Element, x: string, y: string)
    requires e.IsNamedAuto() && e.name.value != x && Based(m, prev) && prev != x
    requires NextTo(m.es, x, y)
    ensures NextTo(MergeOne(m, e).es, x, y)
  {
    var i, j :| 0 <= i < j < |m.es| && Adjacent(m.es, x, y, i, j);
    var name := e.name.value;
    var p := Place(m, name);
    if name in Names(m.es) {
      AdjacentAfterUpdate(m.es, x, y, i, j, p, Replace(m.es[p], e));
    } else {
      PlaceOutside(m, prev, x, y, i, j);
      AdjacentAfterInsert(m.es, x, y, i, j, p, e);
    }
  }

  function NameAt(es: Elements, k: nat): string
    requires k < |es| && es[k].IsNamedAuto()
  {
    es[k].name.value
  }

  /** The last named section among the first k children, given that there is one at or after p. */
  function LastNamed(ce: Elements, p: nat, k: nat): (r: nat)
    requires p < k <= |ce| && ce[p].IsNamedAuto()
    ensures p <= r < k && ce[r].IsNamedAuto()
    decreases k
  {
    if ce[k - 1].IsNamedAuto() then k - 1 else LastNamed(ce, p, k - 1)
  }

  lemma {:induction false} MergeUpToBased(m: Merge, ce: Elements, p: nat, k: nat)
    requires InList(m) && p < k <= |ce| && ce[p].IsNamedAuto()
    ensures Based(MergeUpTo(m, ce, k), NameAt(ce, LastNamed(ce, p, k)))
    decreases k
  {
    if ce[k - 1].IsNamedAuto() {
      MergeOneBased(MergeUpTo(m, ce, k - 1), ce[k - 1]);
    } else {
      MergeUpToBased(m, ce, p, k - 1);
    }
  }

  lemma NamesDiffer(es: Elements, i: nat, j: nat)
    requires DistinctNames(es) && i < j < |es| && es[i].IsNamedAuto() && es[j].IsNamedAuto()
    ensures NameAt(es, i) != NameAt(es, j)
  {
    assert es[i].name != es[j].name;
  }

  /** The section at p is the last one named before the one at q. */
  ghost predicate Precedes(ce: Elements, p: nat, q: nat) {
    && p < q < |ce| && ce[p].IsNamedAuto() && ce[q].IsNamedAuto()
    && LastNamed(ce, p, q) == p
  }

  /**
   A source section that is new follows its predecessor in the source, and stays
   there while the rest is merged in.
  */
  lemma {:induction false} MergeUpToNextTo(target: Elements, ce: Elements, p: nat, q: nat, k: nat)
    requires DistinctNames(ce) && Precedes(ce, p, q) && q < k <= |ce|
    requires NameAt(ce, q) !in Names(target)
    ensures NextTo(MergeUpTo(Merge(target, None), ce, k).es, NameAt(ce, p), NameAt(ce, q))
    decreases k
  {
    var m := MergeUpTo(Merge(target, None), ce, k - 1);
    if k == q + 1 {
      MergeUpToBased(Merge(target, None), ce, p, q);
      MergeUpToSections(Merge(target, None), ce, q, NameAt(ce, q));
      FindIs(ce, NameAt(ce, q), q) by { forall i | 0 <= i < q && ce[i].IsNamedAuto() { NamesDiffer(ce, i, q); } }
      NewSectionIsNext(m, NameAt(ce, p), ce[q]);
    } else {
      MergeUpToNextTo(target, ce, p, q, k - 1);
      if ce[k - 1].IsNamedAuto() {
        MergeUpToBased(Merge(target, None), ce, q, k - 1);
        NamesDiffer(ce, p, LastNamed(ce, q, k - 1));
        NamesDiffer(ce, p, k - 1);
        NextToSurvives(m, NameAt(ce, LastNamed(ce, q, k - 1)), ce[k - 1], NameAt(ce, p), NameAt(ce, q));
      }
    }
  }

  lemma NextToDisabled(es: Elements, known: set<string>, x: string, y: string)
    requires NextTo(es, x, y)
    ensures NextTo(DisableMissing(es, known), x, y)
  {
    var i, j :| 0 <= i < j < |es| && Adjacent(es, x, y, i, j);
    var r := DisableMissing(es, known);
    assert r[i] == DisableOne(es[i], known) && r[j] == DisableOne(es[j], known);
    assert Adjacent(r, x, y, i, j);
  }

  /**
   A section that the target did not have ends up right behind the one that
   precedes it in the source, with no other generated section between.
  */
  lemma CombineOrders(target: Elements, source: Elements, p: nat, q: nat)
    requires DistinctNames(source) && Precedes(source, p, q)
    requires NameAt(source, q) !in Names(target)
    ensures NextTo(Combine(target, source), NameAt(source, p), NameAt(source, q))
  {
    MergeUpToNextTo(target, source, p, q, |source|);
    NextToDisabled(MergeUpTo(Merge(target, None), source, |source|).es, Names(source), NameAt(source, p),
      NameAt(source, q));
  }
}
