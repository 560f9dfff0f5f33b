/**
 Printing a tree and loading the text gives the tree back, up to one blank in
 front of the first text of each named section.
*/
module CodeRoundTrip {

  import opened CodeTree
  import opened CodeGrammar
  import opened Wrappers

  // ------------------------------------------------------ well-formed trees

  /** Characters that can be told from the end of the file. */
  predicate Plain(s: string) {
    forall i :: 0 <= i < |s| ==> s[i] != END_CHAR
  }

  predicate StartsMarker(s: string) {
    5 <= |s| && IsMarker(s[..5])
  }

  /** No line after the first starts with a marker, and the last line is complete. */
  predicate WholeLines(t: string) {
    && t != "" && IsNewline(t[|t| - 1]) && Plain(t)
    && forall i :: 0 <= i < |t| - 1 && IsNewline(t[i]) ==> !StartsMarker(t[i + 1..])
  }

  predicate GoodText(e: Element) {
    e.Text? && e.text.Some? && WholeLines(e.text.value) && !StartsMarker(e.text.value)
  }

  predicate GoodName(name: string) {
    name != "" && |name| < NAME_MAX && forall i :: 0 <= i < |name| ==> name[i] != '\"'
  }

  function Line(t: string): (r: string)
    ensures r <= t
    ensures |r| < |t| ==> IsNewline(t[|r|])
    ensures forall i :: 0 <= i < |r| ==> !IsNewline(r[i])
  {
    if t == "" || IsNewline(t[0]) then "" else [t[0]] + Line(t[1..])
  }

  /** The first line has no character that ends a word among those a word can have, and is not the word id. */
  predicate KeepsFirstWord(t: string) {
    var l := Line(t);
    && l != "id"
    && forall i :: 0 <= i < |l| && i < NAME_MAX ==> l[i] !in ID_SPLITTERS
  }

  /** How the children of an element may begin: after a name any text; otherwise a text whose first word survives. */
  predicate GoodStart(children: seq<Element>, named: bool) {
    && children != [] && GoodText(children[0])
    && (!named ==> KeepsFirstWord(children[0].text.value))
  }

  predicate GoodElement(e: Element) {
    match e
    case Text(_) => GoodText(e)
    case Section(_, name, children) =>
      && (name.Some? ==> GoodName(name.value))
      && GoodStart(children, name.Some?)
      && NoAdjacentTexts(children)
      && forall c :: c in children ==> GoodElement(c)
  }

  predicate NoAdjacentTexts(es: seq<Element>) {
    forall i :: 0 <= i < |es| - 1 && es[i].Text? ==> !es[i + 1].Text?
  }

  predicate GoodList(es: seq<Element>) {
    NoAdjacentTexts(es) && forall i :: 0 <= i < |es| ==> GoodElement(es[i])
  }

  /** A document that is read back, with whatever it ends. */
  predicate Readable(es: seq<Element>) {
    GoodList(es) && GoodStart(es, false)
  }

  predicate GoodDocument(es: seq<Element>) {
    Readable(es) && es[|es| - 1].Text?
  }

  // ------------------------------------------------- what comes back

  function BlankFirst(es: seq<Element>): seq<Element> {
    if es != [] && es[0].Text? && es[0].text.Some? then [Text(Some(" " + es[0].text.value))] + es[1..] else es
  }

  function Loaded(e: Element): Element {
    match e
    case Text(_) => e
    case Section(kind, name, children) =>
      var cs := seq(|children|, i requires 0 <= i < |children| => Loaded(children[i]));
      Section(kind, name, if name.Some? then BlankFirst(cs) else cs)
  }

  function LoadedAll(es: seq<Element>): (r: seq<Element>)
    ensures |r| == |es|
  {
    seq(|es|, i requires 0 <= i < |es| => Loaded(es[i]))
  }

  function Weight(es: seq<Element>): (r: nat)
    ensures |es| <= r
  {
    if es == [] then 0
    else (match es[0] case Text(_) => 1 case Section(_, _, children) => 2 + Weight(children)) + Weight(es[1..])
  }

  // ------------------------------------------------------- reading steps

  lemma {:induction false} TakeAll(s: string, more: string)
    requires Plain(s) && forall i :: 0 <= i < |s| ==> !IsNewline(s[i])
    ensures TakeN(s + more, |s|) == Taken(s, more, false)
  {
    if s == "" {
      assert s + more == more;
    } else {
      assert (s + more)[1..] == s[1..] + more;
      TakeAll(s[1..], more);
    }
  }

  /** Inside complete lines, up to five characters of the current line are taken. */
  lemma {:induction false} TakeInLine(t: string, more: string, n: nat)
    requires t != "" && IsNewline(t[|t| - 1]) && Plain(t)
    ensures var r := TakeN(t + more, n);
      && |r.text| < |t| && r.text == t[..|r.text|]
      && r.rest == t[|r.text|..] + more && !r.eof
  {
    if n == 0 || IsNewline(t[0]) {
    } else {
      assert (t + more)[1..] == t[1..] + more;
      TakeInLine(t[1..], more, n - 1);
      var k := |TakeN(t[1..] + more, n - 1).text|;
      assert t[..k + 1] == [t[0]] + t[1..][..k];
    }
  }

  lemma TakeMarker(m: string, more: string)
    requires IsMarker(m)
    ensures TakeN(m + more, 5) == Taken(m, more, false)
  {
    TakeAll(m, more);
  }

  /** What may come after a text: nothing, or a marker. */
  predicate Stops(s: string) {
    s == "" || StartsMarker(s)
  }

  lemma TakeTextStops(more: string)
    requires Stops(more)
    ensures TakeText(more, true) == Taken("", more, more == "")
  {
    if more != "" {
      assert more == more[..5] + more[5..];
      TakeMarker(more[..5], more[5..]);
    }
  }

  lemma WholeLinesTail(t: string, k: nat)
    requires WholeLines(t) && k < |t|
    ensures WholeLines(t[k..])
    ensures 0 < k && IsNewline(t[k - 1]) ==> !StartsMarker(t[k..])
  {
    var u := t[k..];
    forall i | 0 <= i < |u| - 1 && IsNewline(u[i]) ensures !StartsMarker(u[i + 1..]) {
      assert u[i + 1..] == t[k + i + 1..];
    }
  }

  /** At the start of a line that is no marker, the next characters are taken at once. */
  lemma LineBack(t: string, more: string)
    requires WholeLines(t) && !StartsMarker(t)
    ensures var k := |TakeN(t + more, 5).text|;
      && k < |t| && WholeLines(t[k..]) && t == t[..k] + t[k..]
      && TakeText(t + more, true) == (var r := TakeText(t[k..] + more, false); Taken(t[..k] + r.text, r.rest, r.eof))
  {
    TakeInLine(t, more, 5);
    var k := |TakeN(t + more, 5).text|;
    WholeLinesTail(t, k);
    assert k == 5 ==> t[..k] == t[..5];
    hide TakeN, WholeLines;
  }

  /** A text of complete lines is read back as a whole. */
  lemma {:induction false} TakeTextBack(t: string, more: string, newline: bool)
    requires WholeLines(t) && Stops(more) && (newline ==> !StartsMarker(t))
    ensures TakeText(t + more, newline) == Taken(t, more, more == "")
    decreases |t|, newline
  {
    if newline {
      LineBack(t, more);
      hide TakeText, WholeLines;
      var k := |TakeN(t + more, 5).text|;
      TakeTextBack(t[k..], more, false);
    } else {
      assert (t + more)[1..] == t[1..] + more;
      if |t| == 1 {
        assert t[1..] + more == more;
        TakeTextStops(more);
      } else {
        WholeLinesTail(t, 1);
        TakeTextBack(t[1..], more, IsNewline(t[0]));
        assert t == [t[0]] + t[1..];
      }
    }
  }

  lemma {:induction false} TakeWordBack(w: string, c: char, more: string, splitters: string, n: nat)
    requires Plain(w) && forall i :: 0 <= i < |w| ==> !IsNewline(w[i]) && w[i] !in splitters
    requires |w| < n && c in splitters && !IsNewline(c) && c != END_CHAR
    ensures TakeWord(w + [c] + more, splitters, n) == Taken(w, more, false)
  {
    var s := w + [c] + more;
    if w == "" {
      assert s[1..] == more;
    } else {
      assert s[1..] == w[1..] + [c] + more;
      TakeWordBack(w[1..], c, more, splitters, n - 1);
    }
  }

  lemma {:induction false} TakeNameBack(name: string, more: string, n: nat)
    requires |name| < n && forall i :: 0 <= i < |name| ==> name[i] != '\"'
    ensures TakeName(name + "\"" + more, '\"', n) == Taken(name, more, false)
  {
    var s := name + "\"" + more;
    if name == "" {
      assert s[1..] == more;
    } else {
      assert s[1..] == name[1..] + "\"" + more;
      TakeNameBack(name[1..], more, n - 1);
    }
  }

  lemma GetKindWord(kind: Kind, more: string)
    ensures GetWord(KindWord(kind) + " " + more, TYPE_SPLITTERS, NAME_MAX) == Taken(KindWord(kind), more, false)
  {
    var w := KindWord(kind);
    assert " " == [' '];
    assert !IsBlank((w + " " + more)[0]);
    TakeWordBack(w, ' ', more, TYPE_SPLITTERS, NAME_MAX);
  }

  lemma NamedHeaderBack(name: string, more: string)
    requires GoodName(name)
    ensures TakeHeader("id=\"" + name + "\" " + more) == Header(Some(name), " " + more, false)
  {
    var s := "id=\"" + name + "\" " + more;
    var tail := "\"" + name + "\" " + more;
    assert s == "id" + ['='] + tail;
    TakeWordBack("id", '=', tail, ID_SPLITTERS, NAME_MAX);
    assert GetWord(s, ID_SPLITTERS, NAME_MAX) == Taken("id", tail, false);
    assert tail[1..] == name + "\"" + (" " + more);
    assert FindQuote(tail) == ('\"', Taken("", tail[1..], false));
    TakeNameBack(name, " " + more, NAME_MAX);
  }

  /** A word that the end of its line, or its longest possible length, ends is taken without loss. */
  lemma {:induction false} TakeLineWord(l: string, after: string, n: nat)
    requires Plain(l) && after != "" && IsNewline(after[0])
    requires forall i :: 0 <= i < |l| ==> !IsNewline(l[i]) && (i < n ==> l[i] !in ID_SPLITTERS)
    ensures TakeWord(l + after, ID_SPLITTERS, n)
         == if |l| <= n then Taken(l, after, false) else Taken(l[..n], l[n..] + after, false)
  {
    if n == 0 {
      assert l[..0] == "" && l[0..] == l;
      assert l == "" ==> l + after == after;
    } else if l == "" {
      assert l + after == after;
    } else {
      assert (l + after)[1..] == l[1..] + after;
      TakeLineWord(l[1..], after, n - 1);
      assert l == [l[0]] + l[1..];
      assert n < |l| ==> l[..n] == [l[0]] + l[1..][..n - 1] && l[n..] == l[1..][n - 1..];
    }
  }

  lemma {:induction false} TakeFirstWord(t: string, more: string)
    requires WholeLines(t) && KeepsFirstWord(t)
    ensures var r := TakeWord(t + more, ID_SPLITTERS, NAME_MAX);
      r.text + r.rest == t + more && !r.eof && r.text != "id"
  {
    hide TakeWord;
    var l := Line(t);
    var after := t[|l|..] + more;
    assert t == l + t[|l|..];
    assert IsNewline(t[|t| - 1]) && (|l| == |t| ==> l == t);
    assert t + more == l + after;
    assert Plain(l) by { assert forall i :: 0 <= i < |l| ==> l[i] == t[i]; }
    TakeLineWord(l, after, NAME_MAX);
    if NAME_MAX < |l| { assert l == l[..NAME_MAX] + l[NAME_MAX..]; }
  }

  lemma PlainHeaderBack(t: string, more: string)
    requires WholeLines(t) && KeepsFirstWord(t)
    ensures TakeHeader(t + more) == Header(None, t + more, false)
  {
    TakeFirstWord(t, more);
    assert Line(t) != "" ==> Line(t)[0] == t[0] && t[0] !in ID_SPLITTERS;
    assert ' ' in ID_SPLITTERS && '\t' in ID_SPLITTERS;
    assert (t + more)[0] == t[0] && !IsBlank(t[0]) && t[0] != END_CHAR;
    hide TakeWord;
    assert SkipBlanks(t + more) == t + more;
  }

  // ------------------------------------------------------- the whole tree

  lemma BlankKeepsText(t: string)
    requires WholeLines(t)
    ensures WholeLines(" " + t) && !StartsMarker(" " + t)
  {
    var u := " " + t;
    assert 5 <= |u| ==> u[..5][0] == ' ';
    forall i | 0 <= i < |u| - 1 && IsNewline(u[i]) ensures !StartsMarker(u[i + 1..]) {
      assert u[i + 1..] == t[i..];
      WholeLinesTail(t, i);
    }
  }

  lemma GoodChildren(e: Element)
    requires e.Section? && GoodElement(e)
    ensures GoodList(e.children)
  {
    forall i | 0 <= i < |e.children| ensures GoodElement(e.children[i]) {
      assert e.children[i] in e.children;
    }
  }

  lemma BlankFirstGood(es: seq<Element>)
    requires GoodList(es) && es != [] && es[0].Text?
    ensures GoodList(BlankFirst(es))
  {
    assert GoodElement(es[0]);
    BlankKeepsText(es[0].text.value);
    var r := BlankFirst(es);
    assert forall i :: 0 < i < |r| ==> r[i] == es[i];
    assert forall i :: 0 <= i < |r| ==> r[i].Text? == es[i].Text?;
  }

  function WeightOne(e: Element): nat {
    match e case Text(_) => 1 case Section(_, _, children) => 2 + Weight(children)
  }

  lemma ConsPrint(e: Element, rest: seq<Element>)
    ensures SaveAll([e] + rest) == Save(e) + SaveAll(rest)
    ensures Weight([e] + rest) == WeightOne(e) + Weight(rest)
  {
    assert ([e] + rest)[1..] == rest;
  }

  /** A blank in front of the first text is one more character in print. */
  lemma BlankFirstSaved(es: seq<Element>)
    requires es != [] && es[0].Text? && es[0].text.Some?
    ensures Weight(BlankFirst(es)) == Weight(es)
    ensures SaveAll(BlankFirst(es)) == " " + SaveAll(es)
  {
    var t, rest := es[0].text.value, es[1..];
    ConsPrint(es[0], rest);
    ConsPrint(Text(Some(" " + t)), rest);
    Associate(" ", t, SaveAll(rest));
    assert es == [es[0]] + rest;
    hide Weight, SaveAll;
  }

  lemma Associate(a: string, b: string, c: string)
    ensures (a + b) + c == a + (b + c)
  {
  }

  lemma BlankFirstLoaded(es: seq<Element>)
    ensures LoadedAll(BlankFirst(es)) == BlankFirst(LoadedAll(es))
  {
    var a, b := LoadedAll(BlankFirst(es)), BlankFirst(LoadedAll(es));
    assert es != [] ==> Loaded(es[0]).Text? == es[0].Text?;
    forall i | 0 <= i < |es| ensures a[i] == b[i] {
      assert i > 0 ==> BlankFirst(es)[i] == es[i];
    }
  }

  lemma TailIsGood(es: seq<Element>)
    requires GoodList(es) && es != []
    ensures GoodList(es[1..]) && GoodElement(es[0]) && (es[0].Text? ==> GoodText(es[0]))
  {
    assert forall i :: 0 <= i < |es| - 1 ==> es[1..][i] == es[i + 1];
    hide WholeLines;
  }

  lemma TailPrints(es: seq<Element>)
    requires es != []
    ensures LoadedAll(es) == [Loaded(es[0])] + LoadedAll(es[1..])
    ensures SaveAll(es) == Save(es[0]) + SaveAll(es[1..])
    ensures es[0].Text? && es[0].text.Some? ==>
      Save(es[0]) == es[0].text.value && Loaded(es[0]) == Text(Some(es[0].text.value))
    ensures Weight(es[1..]) < Weight(es) && (es[0].Section? ==> Weight(es[0].children) < Weight(es))
  {
    ConsPrint(es[0], es[1..]);
    assert es == [es[0]] + es[1..];
    assert LoadedAll(es)[0] == Loaded(es[0]) && LoadedAll(es)[1..] == LoadedAll(es[1..]);
  }

  lemma SectionStops(e: Element, more: string)
    requires e.Section?
    ensures Stops(Save(e) + more) && Save(e) + more != ""
  {
    assert (Save(e) + more)[..5] == OPEN;
  }

  lemma StopsAfterText(es: seq<Element>, more: string)
    requires GoodList(es) && es != [] && es[0].Text? && Stops(more)
    ensures Stops(SaveAll(es[1..]) + more)
    ensures SaveAll(es[1..]) + more == "" <==> |es| == 1 && more == ""
  {
    if |es| == 1 {
      assert SaveAll(es[1..]) + more == more;
    } else {
      assert es[0].Text? && es[1].Section? && es[1..][0] == es[1];
      SectionStops(es[1], SaveAll(es[1..][1..]) + more);
      assert SaveAll(es[1..]) + more == Save(es[1]) + (SaveAll(es[1..][1..]) + more);
    }
  }

  lemma LoadedSection(e: Element)
    requires e.Section?
    ensures Loaded(e) == Section(e.kind, e.name,
      if e.name.Some? then BlankFirst(LoadedAll(e.children)) else LoadedAll(e.children))
  {
  }

  /** What the children of an element are loaded as: behind a name with a blank in front. */
  function Printed(e: Element): seq<Element>
    requires e.Section?
  {
    if e.name.Some? then BlankFirst(e.children) else e.children
  }

  /** What is printed behind the type word. */
  function Body(e: Element, more: string): string
    requires e.Section?
  {
    (if e.name.Some? then "id=\"" + e.name.value + "\" " else "") + (SaveAll(e.children) + (CLOSE + more))
  }

  lemma SectionPrint(e: Element, more: string)
    requires e.Section?
    ensures Save(e) + more == OPEN + (KindWord(e.kind) + " " + Body(e, more))
  {
  }

  lemma UnnamedHeaderBack(es: seq<Element>, more: string)
    requires GoodStart(es, false)
    ensures TakeHeader(SaveAll(es) + more) == Header(None, SaveAll(es) + more, false)
  {
    var t := es[0].text.value;
    PlainHeaderBack(t, SaveAll(es[1..]) + more);
    TailPrints(es);
    hide *;
    Associate(t, SaveAll(es[1..]), more);
  }

  lemma NamedSectionBack(name: string, es: seq<Element>, more: string)
    requires GoodName(name) && es != [] && es[0].Text? && es[0].text.Some?
    ensures TakeHeader("id=\"" + name + "\" " + (SaveAll(es) + more)) ==
      Header(Some(name), SaveAll(BlankFirst(es)) + more, false)
  {
    BlankFirstSaved(es);
    hide *;
    NamedHeaderBack(name, SaveAll(es) + more);
    Associate(" ", SaveAll(es), more);
  }

  lemma SectionHeaderBack(e: Element, more: string)
    requires e.Section? && GoodElement(e)
    ensures TakeHeader(Body(e, more)) == Header(e.name, SaveAll(Printed(e)) + (CLOSE + more), false)
  {
    hide TakeHeader, SaveAll, Save;
    if e.name.Some? {
      NamedSectionBack(e.name.value, e.children, CLOSE + more);
    } else {
      UnnamedHeaderBack(e.children, CLOSE + more);
      assert "" + (SaveAll(e.children) + (CLOSE + more)) == SaveAll(e.children) + (CLOSE + more);
    }
  }

  lemma PrintedIsGood(e: Element)
    requires e.Section? && GoodElement(e)
    ensures GoodList(Printed(e)) && Weight(Printed(e)) == Weight(e.children)
    ensures Loaded(e) == Section(e.kind, e.name, LoadedAll(Printed(e)))
  {
    GoodChildren(e);
    LoadedSection(e);
    if e.name.Some? {
      BlankFirstGood(e.children);
      BlankFirstSaved(e.children);
      BlankFirstLoaded(e.children);
    }
  }

  lemma TextChildBack(t: string, more: string)
    requires WholeLines(t) && !StartsMarker(t) && Stops(more)
    ensures var r := TakeChildren(more, more == "");
      TakeChildren(t + more, false) == r.(children := [Text(Some(t))] + r.children)
  {
    var x := TakeN(t + more, 5);
    TakeInLine(t, more, 5);
    assert x.text + x.rest == t + more by { assert t == t[..|x.text|] + t[|x.text|..]; }
    TakeTextBack(t, more, false);
  }

  lemma SectionStarts(s: string, kind: Kind, w: Taken)
    requires TakeN(s, 5) == Taken(OPEN, KindWord(kind) + " " + w.rest, false)
    requires GetWord(KindWord(kind) + " " + w.rest, TYPE_SPLITTERS, NAME_MAX) == w
    requires w == Taken(KindWord(kind), w.rest, false)
    ensures TakeChildren(s, false) == TakeSection(kind, w)
  {
    hide TakeSection;
    hide TakeN;
    hide GetWord;
    assert OPEN != CLOSE;
    assert |KindWord(Auto)| != |KindWord(User)|;
  }

  lemma SectionEnds(kind: Kind, w: Taken, h: Header, inside: Parsed)
    requires !w.eof && TakeHeader(w.rest) == h && TakeChildren(h.rest, h.eof) == inside && inside.ok
    ensures var r := TakeChildren(inside.rest, inside.eof);
      TakeSection(kind, w) == r.(children := [Section(kind, h.name, inside.children)] + r.children)
  {
    hide TakeHeader;
    hide TakeChildren;
  }

  lemma SectionChildBack(e: Element, inside: Parsed, more: string)
    requires e.Section? && GoodElement(e)
    requires TakeChildren(SaveAll(Printed(e)) + (CLOSE + more), false) == inside
    requires inside == Parsed(true, inside.children, more, false)
    ensures var r := TakeChildren(more, false);
      TakeChildren(Save(e) + more, false) == r.(children := [Section(e.kind, e.name, inside.children)] + r.children)
  {
    hide TakeChildren;
    var w := Taken(KindWord(e.kind), Body(e, more), false);
    SectionPrint(e, more);
    TakeMarker(OPEN, w.text + " " + w.rest);
    GetKindWord(e.kind, w.rest);
    SectionHeaderBack(e, more);
    SectionStarts(Save(e) + more, e.kind, w);
    SectionEnds(e.kind, w, Header(e.name, SaveAll(Printed(e)) + (CLOSE + more), false), inside);
  }

  lemma NoChildrenBack(closed: bool, more: string)
    requires !closed ==> more == ""
    ensures TakeChildren(if closed then CLOSE + more else "", !closed) == Parsed(true, [], more, !closed)
  {
    if closed { TakeMarker(CLOSE, more); }
  }

  /** What follows the children of an element: its closing marker, or the end of the document. */
  function End(closed: bool, more: string): string {
    if closed then CLOSE + more else ""
  }

  /** Behind a section that ends the document a text without characters is read. */
  function Added(es: seq<Element>, closed: bool): seq<Element> {
    if !closed && es != [] && es[|es| - 1].Section? then [Text(None)] else []
  }

  ghost predicate Back(es: seq<Element>, closed: bool, more: string) {
    TakeChildren(SaveAll(es) + End(closed, more), !closed && es == [])
      == Parsed(true, LoadedAll(es) + Added(es, closed), more, !closed)
  }

  predicate Closes(closed: bool, more: string) {
    !closed ==> more == ""
  }

  lemma TextFirst(es: seq<Element>, closed: bool, more: string)
    requires GoodList(es) && es != [] && es[0].Text? && Closes(closed, more)
    ensures GoodText(es[0])
    ensures var rest := SaveAll(es[1..]) + End(closed, more);
      && Stops(rest) && (rest == "" <==> !closed && |es| == 1)
      && SaveAll(es) + End(closed, more) == es[0].text.value + rest
  {
    var end := End(closed, more);
    assert Stops(end) by { if closed { assert end[..5] == CLOSE; } }
    hide Save, SaveAll, Loaded, LoadedAll, Weight, WholeLines, Stops;
    TailIsGood(es);
    TailPrints(es);
    StopsAfterText(es, end);
    Associate(es[0].text.value, SaveAll(es[1..]), end);
  }

  lemma AddedToRest(es: seq<Element>, closed: bool)
    requires es != []
    ensures |es| > 1 || es[0].Text? ==> Added(es, closed) == Added(es[1..], closed)
    ensures LoadedAll(es) + Added(es, closed) == [Loaded(es[0])] + (LoadedAll(es[1..]) + Added(es, closed))
  {
    TailPrints(es);
    if |es| > 1 { assert es[1..][|es| - 2] == es[|es| - 1]; }
  }

  /** At the end of the document, behind a section. */
  lemma NothingLeft()
    ensures TakeChildren("", false) == Parsed(true, [Text(None)], "", true)
  {
    assert TakeChildren("", true) == Parsed(true, [], "", true);
  }

  lemma TextThenRest(es: seq<Element>, closed: bool, more: string)
    requires GoodList(es) && es != [] && es[0].Text? && Closes(closed, more)
    requires Back(es[1..], closed, more)
    ensures Back(es, closed, more)
  {
    hide TakeChildren;
    hide SaveAll;
    TextFirst(es, closed, more);
    TailPrints(es);
    AddedToRest(es, closed);
    TextChildBack(es[0].text.value, SaveAll(es[1..]) + End(closed, more));
  }

  lemma LastSection(es: seq<Element>)
    requires |es| == 1 && es[0].Section?
    ensures SaveAll(es[1..]) + "" == "" && LoadedAll(es[1..]) == [] && Added(es, false) == [Text(None)]
    ensures TakeChildren("", false) == Parsed(true, Added(es, false), "", true)
  {
    NothingLeft();
  }

  lemma SectionThenRest(es: seq<Element>, closed: bool, more: string)
    requires GoodList(es) && es != [] && es[0].Section? && Closes(closed, more)
    requires Back(es[1..], closed, more)
    requires Back(Printed(es[0]), true, SaveAll(es[1..]) + End(closed, more))
    ensures Back(es, closed, more)
  {
    hide TakeChildren;
    hide Save, SaveAll, GoodElement, Loaded, LoadedAll, GoodList;
    TailIsGood(es);
    TailPrints(es);
    AddedToRest(es, closed);
    var e, rest := es[0], SaveAll(es[1..]) + End(closed, more);
    PrintedIsGood(e);
    if |es| == 1 && !closed { LastSection(es); }
    assert LoadedAll(Printed(e)) + Added(Printed(e), true) == LoadedAll(Printed(e));
    assert SaveAll(es) + End(closed, more) == Save(e) + rest;
    SectionChildBack(e, Parsed(true, LoadedAll(Printed(e)), rest, false), rest);
  }

  /** Children, up to the marker that closes them or to the end of the document. */
  lemma {:induction false} ChildrenBack(es: seq<Element>, closed: bool, more: string)
    requires GoodList(es) && Closes(closed, more)
    ensures Back(es, closed, more)
    decreases Weight(es)
  {
    if es == [] {
      NoChildrenBack(closed, more);
      assert SaveAll(es) + End(closed, more) == End(closed, more);
    } else {
      TailIsGood(es);
      TailPrints(es);
      hide Back;
      ChildrenBack(es[1..], closed, more);
      if es[0].Text? {
        TextThenRest(es, closed, more);
      } else {
        PrintedIsGood(es[0]);
        ChildrenBack(Printed(es[0]), true, SaveAll(es[1..]) + End(closed, more));
        SectionThenRest(es, closed, more);
      }
    }
  }

  /**
   Loading a printed document gives the document back, with one blank more in
   front of the first text of every named section, and with a text without
   characters behind a section that ends it.
  */
  lemma LoadSavedAny(es: seq<Element>)
    requires Readable(es)
    ensures Load(SaveAll(es)) == Some(LoadedAll(es) + Added(es, false))
  {
    var t := es[0].text.value;
    TailPrints(es);
    PlainHeaderBack(t, SaveAll(es[1..]));
    ChildrenBack(es, false, "");
    assert SaveAll(es) + "" == SaveAll(es);
  }

  /** A document that ends in a text comes back with nothing behind it. */
  lemma LoadSaved(es: seq<Element>)
    requires GoodDocument(es)
    ensures Load(SaveAll(es)) == Some(LoadedAll(es))
  {
    LoadSavedAny(es);
    assert LoadedAll(es) + [] == LoadedAll(es);
  }
}
