/**
 The first word of an unnamed element (common/codecombin.cpp): the header reader
 loses characters of it unless it fills its line, and a document is read back
 exactly when its first text keeps its first word.
*/
module CodeFirstWord {

  import opened CodeTree
  import opened CodeGrammar
  import opened CodeRoundTrip
  import opened Wrappers

  // ------------------------------------------------ what the header reader loses

  lemma {:induction false} TakeWordLoses(s: string, n: nat, i: nat)
    requires i < n && i < |s| && s[i] in ID_SPLITTERS && !IsNewline(s[i])
    requires forall k :: 0 <= k < i ==> !IsNewline(s[k])
    ensures var r := TakeWord(s, ID_SPLITTERS, n); |r.text| + |r.rest| < |s|
  {
    if s[0] == END_CHAR || s[0] in ID_SPLITTERS {
    } else {
      TakeWordLoses(s[1..], n - 1, i - 1);
    }
  }

  lemma HeaderLoses(t: string, more: string)
    requires WholeLines(t) && !KeepsFirstWord(t)
    ensures |TakeHeader(t + more).rest| < |t + more|
  {
    var s, l := t + more, Line(t);
    assert t == l + t[|l|..] && s == l + (t[|l|..] + more);
    var w := GetWord(s, ID_SPLITTERS, NAME_MAX);
    if w.text == "id" {
      assert |w.rest| + 2 <= |s|;
    } else if IsBlank(t[0]) {
      assert |SkipBlanks(s)| < |s|;
    } else if l == "id" {
      assert s[0] == 'i' && s[1] == 'd';
      TakeLineWord(l, t[|l|..] + more, NAME_MAX);
    } else {
      var i :| 0 <= i < |l| && i < NAME_MAX && l[i] in ID_SPLITTERS;
      assert forall k :: 0 <= k <= i ==> s[k] == l[k];
      assert s[0] == t[0] != END_CHAR && SkipBlanks(s) == s;
      TakeWordLoses(s, NAME_MAX, i);
    }
  }

  /**
   Whatever follows, the header reader leaves an unnamed element alone exactly
   when its first text keeps its first word.
  */
  lemma HeaderKeepsExactlyWhen(t: string, more: string)
    requires WholeLines(t)
    ensures TakeHeader(t + more) == Header(None, t + more, false) <==> KeepsFirstWord(t)
  {
    if KeepsFirstWord(t) { PlainHeaderBack(t, more); } else { HeaderLoses(t, more); }
  }

  // ---------------------------------------------------- the ends of lines

  /** How often a text can end: in front of a marker or the end of the file, behind a newline. */
  function EndsFrom(s: string, newline: bool): nat {
    (if newline && Stops(s) then 1 else 0) + if s == "" then 0 else EndsFrom(s[1..], IsNewline(s[0]))
  }

  function Ends(s: string): nat { EndsFrom(s, false) }

  /** Where the first of these places is, or the length. */
  function FirstEndFrom(s: string, newline: bool): (r: nat)
    ensures r <= |s|
  {
    if s == "" || (newline && Stops(s)) then 0 else 1 + FirstEndFrom(s[1..], IsNewline(s[0]))
  }

  function FirstEnd(s: string): nat { FirstEndFrom(s, false) }

  /** Fewer places to end, or as many and the first one comes earlier. */
  predicate Less(a: string, b: string) {
    Ends(a) < Ends(b) || (Ends(a) == Ends(b) && FirstEnd(a) < FirstEnd(b))
  }

  predicate AtMost(a: string, b: string) {
    Ends(a) < Ends(b) || (Ends(a) == Ends(b) && FirstEnd(a) <= FirstEnd(b))
  }

  predicate OneLine(s: string) {
    forall i :: 0 <= i < |s| ==> !IsNewline(s[i])
  }

  lemma {:induction false} EndsOfSuffix(s: string, newline: bool, k: nat)
    requires k <= |s|
    ensures Ends(s[k..]) <= EndsFrom(s, newline)
    ensures Ends(s[k..]) == EndsFrom(s, newline) ==> FirstEndFrom(s, newline) == k + FirstEnd(s[k..])
    decreases k
  {
    if k == 0 {
      assert s[0..] == s;
    } else {
      assert s[1..][k - 1..] == s[k..];
      EndsOfSuffix(s[1..], IsNewline(s[0]), k - 1);
    }
  }

  lemma {:induction false} EndsInLine(x: string, y: string)
    requires OneLine(x)
    ensures Ends(x + y) == Ends(y) && FirstEnd(x + y) == |x| + FirstEnd(y)
  {
    if x == "" {
      assert x + y == y;
    } else {
      assert (x + y)[1..] == x[1..] + y;
      EndsInLine(x[1..], y);
    }
  }

  predicate Suffix(y: string, s: string) {
    |y| <= |s| && y == s[|s| - |y|..]
  }

  lemma SuffixAtStart(s: string)
    ensures Suffix(s, s) && (s != "" ==> Suffix(s[1..], s)) && Suffix("", s)
  {
  }

  lemma OneLineCons(c: char, s: string)
    requires OneLine(s) && !IsNewline(c)
    ensures OneLine([c] + s)
  {
  }

  lemma SuffixOfTail(y: string, s: string)
    requires s != "" && Suffix(y, s[1..])
    ensures Suffix(y, s)
  {
    assert s[1..][|s| - 1 - |y|..] == s[|s| - |y|..];
  }

  lemma SuffixOfSuffix(z: string, y: string, s: string)
    requires Suffix(z, y) && Suffix(y, s)
    ensures Suffix(z, s)
  {
    assert s[|s| - |y|..][|y| - |z|..] == s[|s| - |z|..];
  }

  /** A part of the first line may be pushed back, but not more than was read. */
  lemma PushedBack(s: string, x: string, y: string)
    requires OneLine(x) && Suffix(y, s) && |x| + |y| <= |s|
    ensures AtMost(x + y, s) && (|x| + |y| < |s| ==> Less(x + y, s)) && Ends(x + y) == Ends(y)
  {
    EndsInLine(x, y);
    EndsOfSuffix(s, false, |s| - |y|);
  }

  lemma SuffixIsLess(y: string, s: string)
    requires Suffix(y, s)
    ensures AtMost(y, s) && (|y| < |s| ==> Less(y, s))
  {
    PushedBack(s, "", y);
    assert "" + y == y;
  }

  // ------------------------------------------------ what the reader goes through

  lemma {:induction false} TakeNPrefix(s: string, n: nat)
    ensures var r := TakeN(s, n); r.text <= s && (r.eof ==> r.text == s)
  {
    if n == 0 || s == "" || s[0] == END_CHAR || IsNewline(s[0]) {
    } else {
      TakeNPrefix(s[1..], n - 1);
    }
  }

  lemma {:induction false} TakeNFull(s: string, n: nat)
    ensures var r := TakeN(s, n); |r.text| == n ==> r.text + r.rest == s
  {
    if n == 0 || s == "" || s[0] == END_CHAR || IsNewline(s[0]) {
      assert "" + s == s;
    } else {
      TakeNFull(s[1..], n - 1);
      var r := TakeN(s[1..], n - 1);
      assert |r.text| == n - 1 ==> [s[0]] + r.text + r.rest == s;
    }
  }

  lemma {:induction false} TakeNSuffix(s: string, n: nat)
    ensures Suffix(TakeN(s, n).rest, s)
  {
    hide Suffix;
    SuffixAtStart(s);
    if n == 0 || s == "" || s[0] == END_CHAR || IsNewline(s[0]) {
    } else {
      TakeNSuffix(s[1..], n - 1);
      SuffixOfTail(TakeN(s[1..], n - 1).rest, s);
    }
  }

  /** What is taken from a line, and an end character behind it, are in that line. */
  lemma {:induction false} TakeNInLine(s: string, n: nat)
    ensures var r := TakeN(s, n); OneLine(r.text) && OneLine(s[..|s| - |r.rest|])
  {
    if n == 0 || s == "" || s[0] == END_CHAR || IsNewline(s[0]) {
    } else {
      TakeNInLine(s[1..], n - 1);
      var r := TakeN(s[1..], n - 1);
      var x := s[1..][..|s| - 1 - |r.rest|];
      assert s[..|s| - |r.rest|] == [s[0]] + x;
      hide OneLine;
      OneLineCons(s[0], r.text);
      OneLineCons(s[0], x);
    }
  }

  lemma TakeNSplits(s: string, n: nat)
    ensures var r := TakeN(s, n);
      && OneLine(r.text) && Suffix(r.rest, s) && (r.eof ==> r.text == s)
      && (|r.text| == n ==> r.text + r.rest == s)
  {
    hide TakeN, Suffix, OneLine;
    TakeNPrefix(s, n);
    TakeNFull(s, n);
    TakeNSuffix(s, n);
    TakeNInLine(s, n);
  }

  lemma {:induction false} SkipBlanksSplits(s: string)
    ensures Suffix(SkipBlanks(s), s)
  {
    hide Suffix;
    SuffixAtStart(s);
    if s == "" || !IsBlank(s[0]) {
    } else {
      SkipBlanksSplits(s[1..]);
      SuffixOfTail(SkipBlanks(s[1..]), s);
    }
  }

  lemma {:induction false} TakeWordInLine(s: string, splitters: string, n: nat)
    ensures OneLine(TakeWord(s, splitters, n).text)
  {
    if n == 0 || s == "" || s[0] == END_CHAR || IsNewline(s[0]) || s[0] in splitters {
    } else {
      TakeWordInLine(s[1..], splitters, n - 1);
      OneLineCons(s[0], TakeWord(s[1..], splitters, n - 1).text);
    }
  }

  lemma {:induction false} TakeWordSplits(s: string, splitters: string, n: nat)
    ensures Suffix(TakeWord(s, splitters, n).rest, s)
  {
    hide Suffix;
    SuffixAtStart(s);
    if n == 0 || s == "" || s[0] == END_CHAR || IsNewline(s[0]) || s[0] in splitters {
    } else {
      TakeWordSplits(s[1..], splitters, n - 1);
      SuffixOfTail(TakeWord(s[1..], splitters, n - 1).rest, s);
    }
  }

  lemma GetWordSplits(s: string, splitters: string, n: nat)
    ensures var r := GetWord(s, splitters, n); OneLine(r.text) && Suffix(r.rest, s)
  {
    SkipBlanksSplits(s);
    var t := SkipBlanks(s);
    SuffixAtStart(t);
    SuffixAtStart(s);
    assert OneLine("");
    hide Suffix, OneLine, SkipBlanks, TakeWord;
    if t != "" {
      var u := if t[0] == END_CHAR then t[1..] else t;
      TakeWordInLine(u, splitters, n);
      TakeWordSplits(u, splitters, n);
      SuffixOfSuffix(u, t, s);
      SuffixOfSuffix(TakeWord(u, splitters, n).rest, u, s);
    }
  }

  lemma {:induction false} FindQuoteSplits(s: string)
    ensures Suffix(FindQuote(s).1.rest, s)
  {
    hide Suffix;
    SuffixAtStart(s);
    if s == "" || s[0] == '\"' || s[0] == '\'' {
    } else {
      FindQuoteSplits(s[1..]);
      SuffixOfTail(FindQuote(s[1..]).1.rest, s);
    }
  }

  /** The places to end that a name has inside. */
  function NameEnds(name: string): nat { Ends(name + "\"") }

  lemma {:induction false} TakeNameIs(s: string, quote: char, n: nat)
    ensures var r := TakeName(s, quote, n);
      forall i :: 0 <= i < |r.text| ==> r.text[i] == END_CHAR || (i < |s| && r.text[i] == s[i])
  {
    if n == 0 || s == "" || s[0] == quote {
    } else {
      TakeNameIs(s[1..], quote, n - 1);
    }
  }

  lemma MarkerInName(s: string, name: string)
    requires forall i :: 0 <= i < |name| ==> name[i] == END_CHAR || (i < |s| && name[i] == s[i])
    requires StartsMarker(name + "\"")
    ensures StartsMarker(s)
  {
    var m := (name + "\"")[..5];
    forall i | 0 <= i < 5 ensures i < |name| && i < |s| && m[i] == s[i] {
      assert m[i] == (name + "\"")[i] && m[i] != '\"' && m[i] != END_CHAR;
    }
    assert m[4] == s[4];
    assert s[..5] == m;
  }

  /** What is read of a name has no more places to end than what it was read from. */
  predicate NameTakes(r: Taken, s: string, newline: bool) {
    EndsFrom(r.text + "\"", newline) + Ends(r.rest) <= EndsFrom(s, newline) && Suffix(r.rest, s)
  }

  lemma NameStarts(s: string, text: string, rest: Taken, newline: bool)
    requires s != "" && text == [s[0]] + rest.text && NameTakes(rest, s[1..], IsNewline(s[0]))
    requires forall i :: 0 <= i < |text| ==> text[i] == END_CHAR || (i < |s| && text[i] == s[i])
    ensures NameTakes(Taken(text, rest.rest, rest.eof), s, newline)
  {
    assert (text + "\"")[1..] == rest.text + "\"";
    if StartsMarker(text + "\"") { MarkerInName(s, text); }
    SuffixOfTail(rest.rest, s);
    hide StartsMarker, Suffix;
  }

  lemma {:induction false} TakeNameEnds(s: string, quote: char, n: nat, newline: bool)
    ensures NameTakes(TakeName(s, quote, n), s, newline)
  {
    var r := TakeName(s, quote, n);
    if n == 0 || s == "" || s[0] == quote {
      EndsOfSuffix(s, newline, if n > 0 && s != "" then 1 else 0);
      assert r.text == "" || r.text == [END_CHAR];
      QuoteEndsNothing(newline);
    } else {
      TakeNameIs(s, quote, n);
      hide NameTakes;
      TakeNameEnds(s[1..], quote, n - 1, IsNewline(s[0]));
      NameStarts(s, r.text, TakeName(s[1..], quote, n - 1), newline);
    }
  }

  lemma QuoteEndsNothing(newline: bool)
    ensures EndsFrom("" + "\"", newline) == 0 && EndsFrom([END_CHAR] + "\"", newline) == 0
  {
    var s := [END_CHAR] + "\"";
    assert s[1..] == "\"" && "" + "\"" == "\"" && "\""[1..] == "";
    assert EndsFrom("", false) == 0;
  }

  function NameEndsOf(name: Option<string>): nat {
    if name.Some? then NameEnds(name.value) else 0
  }

  lemma HeaderSplits(s: string)
    ensures var h := TakeHeader(s);
      && NameEndsOf(h.name) + Ends(h.rest) <= Ends(s)
      && AtMost(h.rest, s) && (|h.rest| < |s| ==> Less(h.rest, s))
  {
    var w := GetWord(s, ID_SPLITTERS, NAME_MAX);
    GetWordSplits(s, ID_SPLITTERS, NAME_MAX);
    hide GetWord, Ends, FirstEnd;
    if w.text != "id" {
      PushedBack(s, w.text, w.rest);
    } else if w.eof {
      SuffixIsLess(w.rest, s);
    } else {
      var (quote, q) := FindQuote(w.rest);
      FindQuoteSplits(w.rest);
      SuffixOfSuffix(q.rest, w.rest, s);
      if q.eof {
        SuffixIsLess(q.rest, s);
      } else {
        var t := TakeName(q.rest, quote, NAME_MAX);
        TakeNameEnds(q.rest, quote, NAME_MAX, false);
        SuffixIsLess(q.rest, s);
        SuffixOfSuffix(t.rest, q.rest, s);
        SuffixIsLess(t.rest, s);
        NameEndsAre(t.text);
      }
    }
  }

  lemma NameEndsAre(name: string)
    ensures EndsFrom(name + "\"", false) == NameEnds(name) == Ends(name + "\"")
  {
  }

  // ------------------------------------------------------- texts and their ends

  /** A text as it stands in a well-formed document. */
  predicate Ended(t: string) {
    t != "" && IsNewline(t[|t| - 1]) && Plain(t)
  }

  /** The start of a line that is no marker is passed over. */
  lemma LineStartEnds(s: string)
    requires s != "" && !StartsMarker(s)
    ensures var t := TakeN(s, 5);
      && EndsFrom(s, true) == Ends(t.rest) && |t.text| + FirstEnd(t.rest) <= FirstEndFrom(s, true)
  {
    var t := TakeN(s, 5);
    LineGoesOn(s);
    hide TakeN, EndsFrom, FirstEndFrom, Stops, OneLine;
    TakeNInLine(s, 5);
    TakeNSuffix(s, 5);
    var x := s[..|s| - |t.rest|];
    assert s == x + t.rest;
    EndsInLine(x, t.rest);
  }

  lemma MarkerEnds(s: string)
    requires Stops(s)
    ensures EndsFrom(s, true) == 1 + Ends(s) && FirstEndFrom(s, true) == 0
  {
  }

  /** A text with an end takes it away, and is no longer than what is in front of it. */
  predicate TakesEnd(r: Taken, s: string, newline: bool) {
    && Suffix(r.rest, s) && (!newline ==> r.text != "")
    && (Ended(r.text) || (newline && r.text == "") ==>
          1 + Ends(r.rest) <= EndsFrom(s, newline) && |r.text| <= FirstEndFrom(s, newline))
  }

  /** Text from the start of a line on. */
  lemma LineText(s: string)
    ensures var t := TakeN(s, 5);
      TakeText(s, true) ==
        if StartsMarker(s) then Taken("", s, false)
        else if t.eof then Taken(s, "", true)
        else var r := TakeText(t.rest, false); Taken(t.text + r.text, r.rest, r.eof)
  {
    hide TakeN, StartsMarker, OneLine, Suffix;
    MarkerStarts(s, TakeN(s, 5));
    TakeNSplits(s, 5);
  }

  lemma MarkerTakesEnd(s: string)
    requires StartsMarker(s)
    ensures TakesEnd(Taken("", s, false), s, true)
  {
    SuffixAtStart(s);
    MarkerEnds(s);
    hide StartsMarker, Suffix;
  }

  lemma RestTakesEnd(s: string)
    requires OneLine(s)
    ensures TakesEnd(Taken(s, "", true), s, true)
  {
    SuffixAtStart(s);
    if s == "" { MarkerEnds(s); }
    LineIsNotEnded(s);
    hide Suffix, Ended;
  }

  lemma LineTakesEnd(s: string)
    requires var t := TakeN(s, 5); TakesEnd(TakeText(t.rest, false), t.rest, false)
    ensures TakesEnd(TakeText(s, true), s, true)
  {
    hide TakeN, TakeText, StartsMarker, OneLine, Suffix, TakesEnd;
    var t := TakeN(s, 5);
    LineText(s);
    TakeNSplits(s, 5);
    if StartsMarker(s) {
      MarkerTakesEnd(s);
    } else if t.eof {
      RestTakesEnd(s);
    } else {
      MarkerStarts(s, t);
      LineStartEnds(s);
      LineThenTakes(s, t, TakeText(t.rest, false));
    }
  }

  lemma LineIsNotEnded(x: string)
    requires OneLine(x)
    ensures !Ended(x)
  {
  }

  lemma LineThenTakes(s: string, t: Taken, r: Taken)
    requires Suffix(t.rest, s) && TakesEnd(r, t.rest, false)
    requires EndsFrom(s, true) == Ends(t.rest) && |t.text| + FirstEnd(t.rest) <= FirstEndFrom(s, true)
    ensures TakesEnd(Taken(t.text + r.text, r.rest, r.eof), s, true)
  {
    SuffixOfSuffix(r.rest, t.rest, s);
    EndedTail(t.text, r.text);
    hide Suffix, Ended;
  }

  /** One character more in front. */
  lemma CharThenTakes(s: string, r: Taken)
    requires s != "" && TakesEnd(r, s[1..], IsNewline(s[0]))
    ensures TakesEnd(Taken([s[0]] + r.text, r.rest, r.eof), s, false)
  {
    SuffixOfTail(r.rest, s);
    EndedTail([s[0]], r.text);
    hide Suffix, Ended;
  }

  lemma {:induction false} TakeTextEnds(s: string, newline: bool)
    ensures TakesEnd(TakeText(s, newline), s, newline)
    decreases |s|, newline
  {
    if newline {
      hide TakesEnd, TakeText;
      var t := TakeN(s, 5);
      TakeTextEnds(t.rest, false);
      LineTakesEnd(s);
    } else if s == "" {
      assert [END_CHAR][0] == END_CHAR;
    } else {
      hide TakesEnd;
      TakeTextEnds(s[1..], IsNewline(s[0]));
      CharThenTakes(s, TakeText(s[1..], IsNewline(s[0])));
    }
  }

  lemma EndsAre(s: string)
    ensures Ends(s) == EndsFrom(s, false) && FirstEnd(s) == FirstEndFrom(s, false)
  {
  }

  lemma MarkerStarts(s: string, t: Taken)
    requires t == TakeN(s, 5)
    ensures |t.text| == 5 && IsMarker(t.text) <==> StartsMarker(s)
    ensures |t.text| == 5 ==> t.text + t.rest == s
    ensures s == "" ==> t.eof
  {
    TakeNSplits(s, 5);
    if StartsMarker(s) {
      assert s == s[..5] + s[5..];
      TakeMarker(s[..5], s[5..]);
    }
    assert |t.text| == 5 ==> (t.text + t.rest)[..5] == t.text;
  }

  lemma EndedTail(a: string, b: string)
    ensures Ended(a + b) && b != "" ==> Ended(b)
  {
    if Ended(a + b) && b != "" {
      assert (a + b)[|a| + |b| - 1] == b[|b| - 1];
      forall i | 0 <= i < |b| ensures b[i] != END_CHAR { assert (a + b)[|a| + i] == b[i]; }
    }
  }

  // ----------------------------------------------------- what a tree takes away

  /** The places to end that a tree uses up: one for each text, and those inside names. */
  function Marks(es: seq<Element>): nat {
    if es == [] then 0
    else
      (match es[0]
       case Text(t) => if t.Some? && Ended(t.value) then 1 else 0
       case Section(_, name, children) => NameEndsOf(name) + Marks(children))
      + Marks(es[1..])
  }

  function MarksOne(e: Element): nat {
    match e
    case Text(t) => if t.Some? && Ended(t.value) then 1 else 0
    case Section(_, name, children) => NameEndsOf(name) + Marks(children)
  }

  lemma MarksCons(e: Element, es: seq<Element>)
    ensures Marks([e] + es) == MarksOne(e) + Marks(es)
  {
    assert ([e] + es)[1..] == es;
  }

  /**
   A tree that begins with a text does not have a longer one than fits in front
   of the first place, or leaves a place unused.
  */
  predicate FirstFits(es: seq<Element>, s: string) {
    es != [] && es[0].Text? && es[0].text.Some? && Ended(es[0].text.value) ==>
      |es[0].text.value| <= FirstEnd(s) || Marks(es) < Ends(s)
  }

  /** What reading from s on gives: no more texts than places, and less is left. */
  predicate Takes(r: Parsed, s: string) {
    Marks(r.children) + Ends(r.rest) <= Ends(s) && AtMost(r.rest, s) && FirstFits(r.children, s)
  }

  lemma TakesFromEarlier(r: Parsed, s: string, before: string)
    requires Takes(r, s) && AtMost(s, before)
    ensures Takes(r, before)
  {
    hide Marks, Ended, Ends, FirstEnd;
  }

  lemma TakesNothing(ok: bool, rest: string, eof: bool, s: string)
    requires AtMost(rest, s)
    ensures Takes(Parsed(ok, [], rest, eof), s)
  {
    hide Ends, FirstEnd;
    assert Marks([]) == 0;
  }

  /** A text in front. */
  lemma TakesText(x: Taken, r: Parsed, s: string)
    requires x == TakeText(s, false) && Takes(r, x.rest)
    ensures Takes(r.(children := [TextOf(x.text)] + r.children), s)
  {
    TakeTextEnds(s, false);
    SuffixIsLess(x.rest, s);
    MarksCons(TextOf(x.text), r.children);
    EndsAre(s);
    hide Ends, FirstEnd, Marks, TakeText, Suffix;
  }

  lemma NoText(r: Parsed, s: string)
    requires Takes(r, s)
    ensures Takes(r.(children := [TextOf("")] + r.children), s)
  {
    MarksCons(TextOf(""), r.children);
    hide Ends, FirstEnd, Marks;
  }

  /** A section in front, or left out. */
  lemma TakesSection(kind: Kind, h: Header, p: Parsed, r: Parsed, s: string)
    requires NameEndsOf(h.name) + Ends(h.rest) <= Ends(s) && AtMost(h.rest, s)
    requires Takes(p, h.rest) && Takes(r, p.rest)
    ensures Takes(if p.ok then r.(children := [Section(kind, h.name, p.children)] + r.children) else r, s)
  {
    MarksCons(Section(kind, h.name, p.children), r.children);
    hide Ends, FirstEnd, Marks, Ended, NameEndsOf;
  }

  /** The five characters that tell what comes next. */
  lemma StartIsLess(s: string, t: Taken)
    requires t == TakeN(s, 5)
    ensures AtMost(t.text + t.rest, s) && AtMost(t.rest, s) && Suffix(t.rest, s)
  {
    TakeNSplits(s, 5);
    PushedBack(s, t.text, t.rest);
    SuffixIsLess(t.rest, s);
  }

  lemma CloseTakes(s: string, t: Taken)
    requires t == TakeN(s, 5) && t.text == CLOSE
    ensures Takes(TakeChildren(s, false), s)
  {
    StartIsLess(s, t);
    hide Takes, AtMost, Suffix;
    TakesNothing(true, t.rest, t.eof, s);
  }

  lemma OpenTakes(s: string, t: Taken, w: Taken)
    requires t == TakeN(s, 5) && t.text == OPEN && w == GetWord(t.rest, TYPE_SPLITTERS, NAME_MAX)
    requires w.text == KindWord(Auto) ==> Takes(TakeSection(Auto, w), w.rest)
    requires w.text == KindWord(User) ==> Takes(TakeSection(User, w), w.rest)
    ensures Takes(TakeChildren(s, false), s)
  {
    OpenChildren(s, t, w);
    StartIsLess(s, t);
    GetWordSplits(t.rest, TYPE_SPLITTERS, NAME_MAX);
    hide Takes, AtMost, Suffix, TakeChildren, TakeSection, TakeN, GetWord, OneLine;
    SuffixOfSuffix(w.rest, t.rest, s);
    WordIsLess(w.rest, s);
    if w.text == KindWord(Auto) {
      TakesFromEarlier(TakeSection(Auto, w), w.rest, s);
    } else if w.text == KindWord(User) {
      TakesFromEarlier(TakeSection(User, w), w.rest, s);
    } else {
      TakesNothing(w.text == "", w.rest, w.eof, s);
    }
  }

  lemma WordIsLess(y: string, s: string)
    requires Suffix(y, s)
    ensures AtMost(y, s)
  {
    SuffixIsLess(y, s);
  }

  lemma OpenChildren(s: string, t: Taken, w: Taken)
    requires t == TakeN(s, 5) && t.text == OPEN && w == GetWord(t.rest, TYPE_SPLITTERS, NAME_MAX)
    ensures TakeChildren(s, false) ==
      if w.text == KindWord(Auto) then TakeSection(Auto, w)
      else if w.text == KindWord(User) then TakeSection(User, w)
      else Parsed(w.text == "", [], w.rest, w.eof)
  {
    assert OPEN[2] != CLOSE[2];
    hide TakeN, GetWord, TakeSection;
  }

  /** How a text is read when the next characters are no marker. */
  function FirstTaken(t: Taken): (x: Taken)
    ensures x.eof || |x.rest| < |t.text| + |t.rest|
  {
    if t.eof && t.text == "" then Taken("", t.rest, true) else TakeText(t.text + t.rest, false)
  }

  lemma TextTakes(s: string, t: Taken)
    requires t == TakeN(s, 5) && !(|t.text| == 5 && IsMarker(t.text))
    requires var x := FirstTaken(t); Takes(TakeChildren(x.rest, x.eof), x.rest)
    ensures Takes(TakeChildren(s, false), s)
  {
    var x := FirstTaken(t);
    var r := TakeChildren(x.rest, x.eof);
    assert TakeChildren(s, false) == r.(children := [TextOf(x.text)] + r.children) by { hide TakeN, TakeText; }
    StartIsLess(s, t);
    hide Takes, AtMost, Suffix, TakeChildren, TakeN, TakeText;
    if t.eof && t.text == "" {
      NoText(r, t.rest);
      TakesFromEarlier(r.(children := [TextOf("")] + r.children), t.rest, s);
    } else {
      TakesText(x, r, t.text + t.rest);
      TakesFromEarlier(r.(children := [TextOf(x.text)] + r.children), t.text + t.rest, s);
    }
  }

  lemma {:induction false} ChildrenTake(s: string, eof: bool)
    ensures Takes(TakeChildren(s, eof), s)
    decreases |s|, !eof, 0
  {
    if eof {
      TakesNothing(true, s, true, s) by { SuffixIsLess(s, s); }
    } else {
      hide Takes, TakeN, TakeChildren, TakeSection, GetWord, FirstTaken;
      var t := TakeN(s, 5);
      if |t.text| == 5 && t.text == CLOSE {
        CloseTakes(s, t);
      } else if |t.text| == 5 && t.text == OPEN {
        var w := GetWord(t.rest, TYPE_SPLITTERS, NAME_MAX);
        if w.text == KindWord(Auto) { SectionTakes(Auto, w); }
        if w.text == KindWord(User) { SectionTakes(User, w); }
        OpenTakes(s, t, w);
      } else {
        var x := FirstTaken(t);
        ChildrenTake(x.rest, x.eof);
        TextTakes(s, t);
      }
    }
  }

  lemma {:induction false} SectionTakes(kind: Kind, w: Taken)
    ensures Takes(TakeSection(kind, w), w.rest)
    decreases |w.rest|, true, 1
  {
    hide Takes, Ends, FirstEnd, TakeHeader, NameEndsOf;
    var h := if w.eof then Header(None, w.rest, true) else TakeHeader(w.rest);
    if w.eof { NoHeader(w.rest); } else { HeaderSplits(w.rest); }
    var p := TakeChildren(h.rest, h.eof);
    var r := TakeChildren(p.rest, p.eof);
    ChildrenTake(h.rest, h.eof);
    ChildrenTake(p.rest, p.eof);
    TakesSection(kind, h, p, r, w.rest);
  }

  lemma NoHeader(s: string)
    ensures NameEndsOf(None) + Ends(s) <= Ends(s) && AtMost(s, s)
  {
  }

  // ------------------------------------------------ a printed tree uses all places

  /** Behind complete lines the next text begins. */
  lemma {:induction false} EndsBehindText(t: string, more: string)
    requires WholeLines(t) && Stops(more)
    ensures Ends(t + more) == 1 + Ends(more) && FirstEnd(t + more) == |t|
    decreases |t|
  {
    assert (t + more)[1..] == t[1..] + more;
    if |t| == 1 {
      assert t[1..] + more == more;
      MarkerEnds(more);
    } else {
      var u := t[1..];
      WholeLinesTail(t, 1);
      EndsBehindText(u, more);
      if IsNewline(t[0]) {
        NoMarkerAtTail(u, more);
        LineGoesOn(u + more);
      }
    }
  }

  lemma LineGoesOn(s: string)
    requires !Stops(s)
    ensures EndsFrom(s, true) == Ends(s) && FirstEndFrom(s, true) == FirstEnd(s)
  {
  }

  lemma NoMarkerAtTail(u: string, more: string)
    requires u != "" && IsNewline(u[|u| - 1]) && !StartsMarker(u)
    ensures !Stops(u + more)
  {
    var s := u + more;
    if 5 <= |u| {
      assert s[..5] == u[..5];
    } else if 5 <= |s| {
      assert s[..5][|u| - 1] == u[|u| - 1];
    }
  }

  /** No marker reaches over the quote behind a name. */
  lemma {:induction false} EndsInName(name: string, more: string, newline: bool)
    requires forall i :: 0 <= i < |name| ==> name[i] != '\"'
    ensures EndsFrom(name + "\"" + more, newline) == EndsFrom(name + "\"", newline) + Ends(more)
  {
    var s := name + "\"" + more;
    MarkerBeforeQuote(name, more);
    if name == "" {
      assert s[1..] == more && "\""[1..] == "";
    } else {
      assert s[1..] == name[1..] + "\"" + more && (name + "\"")[1..] == name[1..] + "\"";
      EndsInName(name[1..], more, IsNewline(name[0]));
    }
  }

  lemma MarkerBeforeQuote(name: string, more: string)
    requires forall i :: 0 <= i < |name| ==> name[i] != '\"'
    ensures StartsMarker(name + "\"" + more) <==> StartsMarker(name + "\"")
  {
    var s, u := name + "\"" + more, name + "\"";
    if 5 <= |u| {
      assert s[..5] == u[..5];
    } else if 5 <= |s| {
      assert s[..5][|name|] == '\"';
    }
  }

  lemma EndsBehindMarker(m: string, more: string)
    requires m == OPEN || m == CLOSE || m == "id=\"" || m == KindWord(Auto) || m == KindWord(User) || m == " "
    ensures Ends(m + more) == Ends(more)
  {
    EndsInLine(m, more);
  }

  lemma HeadEnds(e: Element, rest: string)
    requires e.Section?
    ensures Ends(Save(e) + rest) == Ends(Body(e, rest))
  {
    var body, w := Body(e, rest), KindWord(e.kind);
    SectionPrint(e, rest);
    EndsBehindMarker(OPEN, w + " " + body);
    assert w + " " + body == w + (" " + body);
    hide Save, Body, Ends;
    EndsBehindMarker(w, " " + body);
    EndsBehindMarker(" ", body);
  }

  lemma BodyEnds(e: Element, rest: string)
    requires e.Section? && GoodElement(e)
    ensures Ends(Body(e, rest)) == NameEndsOf(e.name) + Ends(SaveAll(Printed(e)) + (CLOSE + rest))
  {
    var inner := CLOSE + rest;
    hide SaveAll, Ends;
    if e.name.Some? {
      NamedBody(e.name.value, e.children, inner);
    } else {
      assert Body(e, rest) == SaveAll(e.children) + inner;
    }
  }

  /** The places to end in a printed section, when those in its children are used up. */
  lemma SectionUses(e: Element, rest: string)
    requires e.Section? && GoodElement(e)
    requires Ends(SaveAll(Printed(e)) + (CLOSE + rest)) <= Marks(LoadedAll(Printed(e))) + Ends(CLOSE + rest)
    ensures Ends(Save(e) + rest) <= MarksOne(Loaded(e)) + Ends(rest)
  {
    HeadEnds(e, rest);
    BodyEnds(e, rest);
    EndsBehindMarker(CLOSE, rest);
    hide Save, Body, Ends, SaveAll, Printed, LoadedAll, Marks;
    PrintedIsGood(e);
  }

  lemma NamedBody(name: string, es: seq<Element>, inner: string)
    requires GoodName(name) && es != [] && es[0].Text? && es[0].text.Some?
    ensures Ends("id=\"" + name + "\" " + (SaveAll(es) + inner)) ==
      NameEnds(name) + Ends(SaveAll(BlankFirst(es)) + inner)
  {
    BlankFirstSaved(es);
    var more := SaveAll(BlankFirst(es)) + inner;
    assert " " + (SaveAll(es) + inner) == more by { Associate(" ", SaveAll(es), inner); }
    assert "id=\"" + name + "\" " + (SaveAll(es) + inner) == "id=\"" + (name + "\"" + more);
    EndsBehindMarker("id=\"", name + "\"" + more);
    EndsInName(name, more, false);
  }

  lemma TextIsEnded(t: string)
    requires WholeLines(t)
    ensures Ended(t)
  {
  }

  lemma {:induction false} PrintedUses(es: seq<Element>, more: string)
    requires GoodList(es) && Stops(more)
    ensures Ends(SaveAll(es) + more) <= Marks(LoadedAll(es)) + Ends(more)
    decreases Weight(es)
  {
    hide Ends, Ended, Stops;
    if es == [] {
      assert SaveAll(es) + more == more;
    } else {
      var e, rest := es[0], SaveAll(es[1..]) + more;
      TailIsGood(es);
      TailPrints(es);
      MarksCons(Loaded(e), LoadedAll(es[1..]));
      Associate(Save(e), SaveAll(es[1..]), more);
      PrintedUses(es[1..], more);
      if e.Text? {
        StopsAfterText(es, more);
        EndsBehindText(e.text.value, rest);
        TextIsEnded(e.text.value);
      } else {
        PrintedIsGood(e);
        CloseStops(rest);
        PrintedUses(Printed(e), CLOSE + rest);
        SectionUses(e, rest);
      }
    }
  }

  lemma CloseStops(more: string)
    ensures Stops(CLOSE + more)
  {
    assert (CLOSE + more)[..5] == CLOSE;
  }

  // --------------------------------------------------------------- whole documents

  /** A document whose first text loses characters to the header reader is not read back. */
  lemma FirstWordLost(es: seq<Element>)
    requires GoodList(es) && es != [] && GoodText(es[0]) && !KeepsFirstWord(es[0].text.value)
    ensures Load(SaveAll(es)) != Some(LoadedAll(es) + Added(es, false))
  {
    var t, s := es[0].text.value, SaveAll(es);
    var more, c := SaveAll(es[1..]), LoadedAll(es) + Added(es, false);
    TailPrints(es);
    assert s == t + more && c[0] == es[0] && more + "" == more && s + "" == s;
    StopsAfterText(es, "");
    EndsBehindText(t, more);
    PrintedUses(es, "");
    MarksOfAdded(es);
    TextIsEnded(t);
    HeaderLoses(t, more);
    HeaderSplits(s);
    var h := TakeHeader(s);
    ChildrenTake(h.rest, h.eof);
    hide TakeHeader, TakeChildren, Ended, Marks, Ends, FirstEnd, SaveAll, LoadedAll;
    var p := TakeChildren(h.rest, h.eof);
    assert p.children == c ==> Ends(s) <= Marks(p.children) <= Ends(h.rest) && |t| <= FirstEnd(h.rest);
  }

  lemma MarksOfAdded(es: seq<Element>)
    ensures Marks(LoadedAll(es) + Added(es, false)) == Marks(LoadedAll(es)) && Ends("") == 0
  {
    MarksConcat(LoadedAll(es), Added(es, false));
    assert Marks([]) == 0 && Marks([Text(None)]) == 0;
  }

  lemma {:induction false} MarksConcat(a: seq<Element>, b: seq<Element>)
    ensures Marks(a + b) == Marks(a) + Marks(b)
  {
    if a == [] {
      assert a + b == b;
    } else {
      assert (a + b)[1..] == a[1..] + b;
      MarksConcat(a[1..], b);
    }
  }

  /** An otherwise well-formed document is read back exactly when its first text keeps its first word. */
  lemma ReadBackExactlyWhen(es: seq<Element>)
    requires GoodList(es) && es != [] && GoodText(es[0])
    ensures Load(SaveAll(es)) == Some(LoadedAll(es) + Added(es, false)) <==> KeepsFirstWord(es[0].text.value)
  {
    if KeepsFirstWord(es[0].text.value) { LoadSavedAny(es); } else { FirstWordLost(es); }
  }

  /** A file that is one text loads unchanged exactly when its first word is kept. */
  lemma OneTextLoads(t: string)
    requires WholeLines(t) && !StartsMarker(t)
    ensures Load(t) == Some([Text(Some(t))]) <==> KeepsFirstWord(t)
  {
    var es := [Text(Some(t))];
    assert GoodElement(es[0]);
    ReadBackExactlyWhen(es);
    assert es[1..] == [] && SaveAll(es) == t + "" == t;
    assert LoadedAll(es) + Added(es, false) == es;
  }

  /** For one: the blank behind a leading word is lost. */
  lemma LeadingWordLosesBlank()
    ensures TakeHeader("int x;\n").rest == "intx;\n"
  {
    var s := "int x;\n";
    TakeWordBack("int", ' ', "x;\n", ID_SPLITTERS, NAME_MAX);
    assert s == "int" + [' '] + "x;\n";
    assert SkipBlanks(s) == s;
    assert "int" + "x;\n" == "intx;\n";
  }
}
