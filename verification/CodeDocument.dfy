/**
 The merge as the source performs it (common/codecombin.cpp): loops over the
 children of a compound element, which is updated in place.
*/
module CodeDocument {

  import opened CodeTree
  import opened CodeMerge
  import opened Wrappers

  /** Copying a section that has no children fails: the source reads its first child. */
  predicate Clonable(e: Element) {
    match e
    case Text(_) => true
    case Section(_, _, children) => children != [] && forall c :: c in children ==> Clonable(c)
  }

  method Clone(e: Element) returns (r: Element)
    requires Clonable(e)
    ensures r == e
    decreases e
  {
    match e
    case Text(_) =>
      r := e;
    case Section(kind, name, children) =>
      var copied: Elements := [];
      for i := 0 to |children|
        invariant copied == children[..i]
      {
        var c := Clone(children[i]);
        copied := copied + [c];
      }
      assert children[..|children|] == children;
      r := Section(kind, name, copied);
  }

  /** The next text at or after a place. */
  method NextText(es: Elements, from: nat) returns (i: nat)
    requires from <= |es|
    ensures from <= i <= |es| && (i < |es| ==> es[i].Text?)
    ensures forall k :: from <= k < i ==> !es[k].Text?
  {
    i := from;
    while i < |es| && !es[i].Text?
      invariant from <= i <= |es|
      invariant forall k :: from <= k < i ==> !es[k].Text?
    {
      i := i + 1;
    }
  }

  /** The k-th text of mine takes the k-th text of page, as long as both have one. */
  method ReplaceAutoGenPart(mine: Element, page: Element) returns (r: Element)
    requires mine.IsAuto() && page.IsAuto()
    ensures r == Replace(mine, page)
  {
    if page.name != mine.name { return mine; }
    hide ReplaceTexts, Texts, Filled;
    var my, theirs := mine.children, page.children;
    var i := 0;
    var j := NextText(theirs, 0);
    ghost var goal := ReplaceTexts(my, Texts(theirs));
    SkipTexts(theirs, 0, j);
    AllToFill(my, theirs);
    while i < |my| && j < |theirs|
      invariant i <= |my| && j <= |theirs|
      invariant j < |theirs| ==> theirs[j].Text?
      invariant goal == Filled(my, i, Texts(theirs[j..]))
      decreases |my| - i
    {
      var next := NextText(my, i);
      SkipNonTexts(my, i, next, Texts(theirs[j..]));
      i := next;
      if i == |my| { break; }
      TakeText(my, i, theirs, j);
      my := my[i := SetText(my[i], theirs[j].text)];
      i := i + 1;
      next := NextText(theirs, j + 1);
      SkipTexts(theirs, j + 1, next);
      j := next;
    }
    if i == |my| || j == |theirs| { NothingToFill(my, i, theirs, j); }
    r := mine.(children := my);
  }

  lemma AllToFill(my: Elements, theirs: Elements)
    ensures Filled(my, 0, Texts(theirs[0..])) == ReplaceTexts(my, Texts(theirs))
  {
    assert theirs[0..] == theirs && my[0..] == my;
  }

  lemma NothingToFill(my: Elements, i: nat, theirs: Elements, j: nat)
    requires i <= |my| && j <= |theirs| && (i == |my| || j == |theirs|)
    ensures Filled(my, i, Texts(theirs[j..])) == my
  {
    assert my[..i] + my[i..] == my;
    if j == |theirs| { assert theirs[j..] == []; }
  }

  /** The list once the rest of it, from i on, has taken the given texts. */
  ghost function Filled(my: Elements, i: nat, texts: seq<Option<string>>): Elements
    requires i <= |my|
  {
    my[..i] + ReplaceTexts(my[i..], texts)
  }

  lemma SkipTexts(es: Elements, i: nat, j: nat)
    requires i <= j <= |es| && forall k :: i <= k < j ==> !es[k].Text?
    ensures Texts(es[i..]) == Texts(es[j..])
    decreases j - i
  {
    if i == j {
    } else {
      assert es[i..][1..] == es[i + 1..];
      SkipTexts(es, i + 1, j);
    }
  }

  lemma SkipNonTexts(my: Elements, i: nat, j: nat, texts: seq<Option<string>>)
    requires i <= j <= |my| && forall k :: i <= k < j ==> !my[k].Text?
    ensures Filled(my, i, texts) == Filled(my, j, texts)
    decreases j - i
  {
    if i == j {
    } else {
      SkipNonText(my, i, texts);
      SkipNonTexts(my, i + 1, j, texts);
    }
  }

  lemma SkipNonText(my: Elements, i: nat, texts: seq<Option<string>>)
    requires i < |my| && !my[i].Text?
    ensures Filled(my, i, texts) == Filled(my, i + 1, texts)
  {
    assert my[i..] == [my[i]] + my[i + 1..];
    if texts != [] {
      assert ReplaceTexts(my[i..], texts) == [my[i]] + ReplaceTexts(my[i + 1..], texts);
    }
  }

  lemma TakeText(my: Elements, i: nat, theirs: Elements, j: nat)
    requires i < |my| && my[i].Text? && j < |theirs| && theirs[j].Text?
    ensures var t := my[i := SetText(my[i], theirs[j].text)];
      Filled(my, i, Texts(theirs[j..])) == Filled(t, i + 1, Texts(theirs[j + 1..]))
  {
    assert my[i..][1..] == my[i + 1..] && theirs[j..][1..] == theirs[j + 1..];
    assert Texts(theirs[j..]) == [theirs[j].text] + Texts(theirs[j + 1..]);
  }

  /** Wraps what a section prints in #if 0 ... #endif. */
  method DisableCode(e: Element) returns (r: Element)
    requires e.IsAuto()
    ensures r == Disable(e)
  {
    var children := e.children;
    if children != [] && children[0].Text? {
      children := children[0 := Text(PutBefore(IF0, children[0].text))];
    } else {
      children := [Text(Some(IF0))] + children;
    }
    assert children == WithIf0(e.children);
    var last := |children| - 1;
    if children[last].Text? {
      children := children[last := Text(PutAfter(children[last].text, ENDIF))];
    } else {
      children := children + [Text(Some(ENDIF))];
    }
    assert children == WithEndif(WithIf0(e.children));
    r := e.(children := children);
  }

  /** Index of the first generated section, or of the first one of the given name; the length if there is none. */
  method GetAutoChild(children: Elements, name: Option<string>) returns (i: nat)
    ensures name.Some? ==> i == Find(children, name.value)
    ensures name.None? ==>
      i <= |children| && (i < |children| ==> children[i].IsAuto()) && forall k :: 0 <= k < i ==> !children[k].IsAuto()
  {
    i := 0;
    while i < |children| && !(children[i].IsAuto() && (name.None? || children[i].name == name))
      invariant i <= |children|
      invariant forall k :: 0 <= k < i ==> !(children[k].IsAuto() && (name.None? || children[k].name == name))
    {
      i := i + 1;
    }
    if name.Some? { FindIs(children, name.value, i); }
  }

  lemma {:induction false} NothingToMerge(m: Merge, ce: Elements, k: nat)
    requires InList(m) && k <= |ce| && forall i :: 0 <= i < k ==> !ce[i].IsAuto()
    ensures MergeUpTo(m, ce, k) == m
  {
    if k == 0 {
    } else {
      NothingToMerge(m, ce, k - 1);
    }
  }

  lemma NamesKept(m: Merge, e: Element)
    requires InList(m) && e.IsNamedAuto()
    ensures Names(m.es) <= Names(MergeOne(m, e).es)
  {
    forall n | n in Names(m.es) ensures n in Names(MergeOne(m, e).es) {
      MergeOneSections(m, e, n);
    }
  }

  /**
   One step of the merge: the section of that name is refreshed, or a copy goes
   behind the last child that was dealt with.
  */
  lemma MergeOneCases(m: Merge, e: Element)
    requires InList(m) && e.IsNamedAuto()
    ensures var i := Find(m.es, e.name.value);
      if i < |m.es| then
        && m.es[i].IsNamedAuto() && Replace(m.es[i], e).name == e.name && Replace(m.es[i], e).IsNamedAuto()
        && e.name.value in Names(m.es)
        && MergeOne(m, e) == (var es := m.es[i := Replace(m.es[i], e)]; Merge(es, Some(Stride(es, i))))
      else
        && e.name.value !in Names(m.es)
        && var at := if m.last == None then |m.es| else m.last.value + 1;
           MergeOne(m, e) == (var es := InsertAt(m.es, at, e); Merge(es, Some(Stride(es, at))))
  {
  }

  lemma NamedAt(es: Elements, i: nat)
    requires i < |es| && es[i].IsNamedAuto()
    ensures es[i].name.value in Names(es)
  {
  }

  lemma InsertedAt(es: Elements, i: nat, e: Element)
    requires i <= |es|
    ensures |InsertAt(es, i, e)| == |es| + 1 && InsertAt(es, i, e)[i] == e
  {
  }

  class CompoundElement {
    var children: Elements

    constructor (children: Elements)
      ensures this.children == children
    {
      this.children := children;
    }

    method AppendChild(e: Element)
      modifies this
      ensures children == old(children) + [e]
    {
      children := children + [e];
    }

    /** Inserts behind (or before) the child at the given place, or at the end when no place is given. */
    method InsertChild(e: Element, at: Option<nat>, before: bool) returns (i: nat)
      requires at.Some? ==> at.value < |children|
      modifies this
      ensures i == if at.None? then |old(children)| else if before then at.value else at.value + 1
      ensures children == InsertAt(old(children), i, e)
    {
      if children == [] || at.None? {
        i := |children|;
        AppendChild(e);
        return;
      }
      i := if before then at.value else at.value + 1;
      children := children[..i] + [e] + children[i..];
    }

    /** One named source section: refresh the section of that name, or insert a copy. */
    method MergeSection(e: Element, last: Option<nat>) returns (elast: nat)
      requires e.IsNamedAuto() && InList(Merge(children, last))
      requires e.name.value !in Names(children) ==> Clonable(e)
      modifies this
      ensures elast < |children| && e.name.value in Names(children)
      ensures Merge(children, Some(Stride(children, elast))) == MergeOne(Merge(old(children), last), e)
    {
      hide Stride, Replace, MergeOne, Find, InsertAt;
      ghost var was := Merge(children, last);
      MergeOneCases(was, e);
      var i := GetAutoChild(children, e.name);
      if i < |children| {
        var te := ReplaceAutoGenPart(children[i], e);
        children := children[i := te];
        elast := i;
        NamedAt(children, i);
      } else {
        var copy := Clone(e);
        elast := InsertChild(copy, last, false);
        InsertedAt(was.es, elast, e);
        NamedAt(children, elast);
      }
    }

    /** To the last child before the next generated section. */
    method StrideOver(at: nat) returns (last: nat)
      requires at < |children|
      ensures last == Stride(children, at) && Stride(children, last) == last
    {
      last := at;
      while last + 1 < |children| && !children[last + 1].IsAuto()
        invariant at <= last < |children|
        invariant Stride(children, last) == Stride(children, at)
      {
        last := last + 1;
      }
    }

    method DisableMissingSections(ce: Elements)
      modifies this
      ensures children == DisableMissing(old(children), Names(ce))
    {
      for i := 0 to |children|
        invariant |children| == |old(children)|
        invariant forall k :: 0 <= k < |children| ==>
          children[k] == if k < i then DisableOne(old(children)[k], Names(ce)) else old(children)[k]
      {
        if children[i].IsAuto() && children[i].name.Some? {
          var j := GetAutoChild(ce, children[i].name);
          if j == |ce| {
            var te := DisableCode(children[i]);
            children := children[i := te];
          }
        }
      }
      assert children == DisableMissing(old(children), Names(ce));
    }

    /** One round of the merge loop. */
    method MergeChild(e: Element, last: Option<nat>) returns (elast: Option<nat>)
      requires InList(Merge(children, last)) && (last.Some? ==> Stride(children, last.value) == last.value)
      requires e.IsNamedAuto() && e.name.value !in Names(children) ==> Clonable(e)
      modifies this
      ensures InList(Merge(children, elast)) && (elast.Some? ==> Stride(children, elast.value) == elast.value)
      ensures Merge(children, elast)
           == if e.IsNamedAuto() then MergeOne(Merge(old(children), last), e) else Merge(old(children), last)
      ensures Names(old(children)) <= Names(children)
    {
      elast := last;
      if e.IsAuto() && e.name.Some? {
        NamesKept(Merge(children, last), e);
        var at := MergeSection(e, last);
        elast := Some(at);
      }
      if elast.Some? {
        var next := StrideOver(elast.value);
        elast := Some(next);
      }
    }

    method Combin(ce: Elements)
      requires forall e :: e in ce && e.IsNamedAuto() && e.name.value !in Names(children) ==> Clonable(e)
      modifies this
      ensures children == Combine(old(children), ce)
    {
      var elast: Option<nat> := None;
      var k := GetAutoChild(ce, None);
      ghost var m0 := Merge(children, None);
      NothingToMerge(m0, ce, k);
      while k < |ce|
        invariant k <= |ce|
        invariant InList(Merge(children, elast)) && (elast.Some? ==> Stride(children, elast.value) == elast.value)
        invariant Names(old(children)) <= Names(children)
        invariant Merge(children, elast) == MergeUpTo(m0, ce, k)
      {
        elast := MergeChild(ce[k], elast);
        k := k + 1;
      }
      DisableMissingSections(ce);
    }
  }
}
