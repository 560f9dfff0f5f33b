/**
 The file format of code sections spelled out (common/codecombin.cpp): the
 markers, the two section words, the quotes around a name and its length.
*/
module CodeMarkers {

  import opened CodeTree
  import opened CodeGrammar
  import opened CodeMerge
  import opened CodeRoundTrip
  import opened Wrappers

  /** What stands behind the section word, with its closing marker. */
  function Inside(name: Option<string>, children: seq<Element>): string {
    (if name.Some? then "id=\"" + name.value + "\" " else "") + SaveAll(children) + "//]]>"
  }

  /** A section in print, word by word. */
  lemma PrintedSection(e: Element)
    requires e.Section?
    ensures Save(e) == "//<[[" + (if e.kind == Auto then "AutoGenCode" else "UserCode") + " " +
      Inside(e.name, e.children)
  {
  }

  lemma SaveThenMore(e: Element, more: string)
    requires e.Section?
    ensures var word := if e.kind == Auto then "AutoGenCode" else "UserCode";
      "//<[[" + word + " " + (Inside(e.name, e.children) + more) == Save(e) + more
  {
    PrintedSection(e);
  }

  /**
   Behind UserCode a user section is read, behind AutoGenCode a generated one,
   with the name and the children that were printed.
  */
  lemma WordTellsKind(e: Element, more: string)
    requires e.Section? && GoodElement(e)
    ensures var word := if e.kind == Auto then "AutoGenCode" else "UserCode";
      var r := TakeChildren(more, false);
      TakeChildren("//<[[" + word + " " + (Inside(e.name, e.children) + more), false)
        == r.(children := [Loaded(e)] + r.children)
    ensures Loaded(e).kind == e.kind && Loaded(e).name == e.name
  {
    SaveThenMore(e, more);
    PrintedIsGood(e);
    hide TakeChildren, Save, SaveAll, LoadedAll;
    ChildrenBack(Printed(e), true, more);
    assert LoadedAll(Printed(e)) + Added(Printed(e), true) == LoadedAll(Printed(e));
    SectionChildBack(e, Parsed(true, LoadedAll(Printed(e)), more, false), more);
  }

  /** The section word may end in a blank, a tab, a comma or a semicolon. */
  lemma WordEnds(word: string, c: char, rest: string)
    requires word == "AutoGenCode" || word == "UserCode"
    requires c == ' ' || c == '\t' || c == ',' || c == ';'
    ensures TakeChildren("//<[[" + (word + [c] + rest), false)
      == TakeSection(if word == "UserCode" then User else Auto, Taken(word, rest, false))
  {
    var inner := word + [c] + rest;
    WordTaken(word, c, rest);
    TakeMarker(OPEN, inner);
    hide TakeN, GetWord;
    SectionWord("//<[[" + inner, inner, word, rest);
  }

  lemma WordTaken(word: string, c: char, rest: string)
    requires word != "" && |word| < 255 && Plain(word) && !IsBlank(word[0])
    requires forall i :: 0 <= i < |word| ==> !IsNewline(word[i]) && word[i] !in TYPE_SPLITTERS
    requires c == ' ' || c == '\t' || c == ',' || c == ';'
    ensures GetWord(word + [c] + rest, TYPE_SPLITTERS, NAME_MAX) == Taken(word, rest, false)
  {
    var s := word + [c] + rest;
    assert s[0] == word[0] && word[0] != END_CHAR && SkipBlanks(s) == s;
    assert c in TYPE_SPLITTERS;
    hide TakeWord;
    TakeWordBack(word, c, rest, TYPE_SPLITTERS, NAME_MAX);
  }

  lemma SectionWord(s: string, inner: string, word: string, rest: string)
    requires TakeN(s, 5) == Taken(OPEN, inner, false)
    requires GetWord(inner, TYPE_SPLITTERS, NAME_MAX) == Taken(word, rest, false)
    ensures TakeChildren(s, false) ==
      if word == "" then Parsed(true, [], rest, false)
      else if word == "AutoGenCode" then TakeSection(Auto, Taken(word, rest, false))
      else if word == "UserCode" then TakeSection(User, Taken(word, rest, false))
      else Parsed(false, [], rest, false)
  {
    hide TakeN, GetWord, TakeSection;
    assert OPEN != CLOSE;
  }

  /** Behind any other word nothing can be read. */
  lemma OtherWord(word: string, rest: string)
    requires word != "" && |word| < 255 && Plain(word) && word != "AutoGenCode" && word != "UserCode"
    requires forall i :: 0 <= i < |word| ==> !IsNewline(word[i]) && word[i] !in " \t,;\r\n"
    ensures TakeChildren("//<[[" + (word + " " + rest), false) == Parsed(false, [], rest, false)
  {
    var inner := word + " " + rest;
    assert word[0] != ' ' && word[0] != '\t' by { assert word[0] !in " \t,;\r\n"; }
    forall i | 0 <= i < |word| ensures word[i] !in TYPE_SPLITTERS { assert word[i] !in " \t,;\r\n"; }
    WordTaken(word, ' ', rest);
    TakeMarker(OPEN, inner);
    hide TakeN, GetWord;
    SectionWord("//<[[" + inner, inner, word, rest);
  }

  // ------------------------------------------------------------------ names

  lemma {:induction false} TakeNameTo(name: string, quote: char, more: string, n: nat)
    requires forall i :: 0 <= i < |name| ==> name[i] != quote
    ensures TakeName(name + [quote] + more, quote, n) ==
      if |name| < n then Taken(name, more, false) else Taken(name[..n], name[n..] + [quote] + more, false)
  {
    var s := name + [quote] + more;
    if n == 0 {
      assert name[0..] == name && name[..0] == "";
    } else if name == "" {
      assert s[1..] == more;
    } else {
      assert s[1..] == name[1..] + [quote] + more;
      TakeNameTo(name[1..], quote, more, n - 1);
      if n <= |name| { assert name[..n] == [name[0]] + name[1..][..n - 1] && name[1..][n - 1..] == name[n..]; }
    }
  }

  /** The quotes around a name may be single or double ones, as long as both are the same. */
  lemma NameInQuotes(name: string, quote: char, more: string)
    requires name != "" && (quote == '\"' || quote == '\'') && forall i :: 0 <= i < |name| ==> name[i] != quote
    ensures TakeHeader("id=" + [quote] + name + [quote] + more) ==
      if |name| <= 254 then Header(Some(name), more, false)
      else Header(Some(name[..255]), name[255..] + [quote] + more, false)
  {
    var tail := [quote] + name + [quote] + more;
    var s := "id=" + [quote] + name + [quote] + more;
    assert s == "id" + ['='] + tail;
    IdTaken(s, tail);
    assert tail[1..] == name + [quote] + more;
    assert FindQuote(tail) == (quote, Taken("", tail[1..], false));
    TakeNameTo(name, quote, more, 255);
    hide GetWord, TakeName, FindQuote;
  }

  /** An empty name is none. */
  lemma EmptyName(quote: char, more: string)
    requires quote == '\"' || quote == '\''
    ensures TakeHeader("id=" + [quote] + [quote] + more) == Header(None, more, false)
  {
    var tail := [quote] + [quote] + more;
    var s := "id=" + [quote] + [quote] + more;
    assert s == "id" + ['='] + tail;
    IdTaken(s, tail);
    assert tail[1..] == [quote] + more && ([quote] + more)[1..] == more;
    assert FindQuote(tail) == (quote, Taken("", tail[1..], false));
    hide GetWord, FindQuote;
  }

  lemma IdTaken(s: string, tail: string)
    requires s == "id" + ['='] + tail
    ensures GetWord(s, ID_SPLITTERS, NAME_MAX) == Taken("id", tail, false)
  {
    TakeWordBack("id", '=', tail, ID_SPLITTERS, NAME_MAX);
    assert SkipBlanks(s) == s;
    hide TakeWord;
  }

  /** A name is read back exactly when it has at most 254 characters. */
  lemma NameReadExactlyWhen(name: string, more: string)
    requires name != "" && forall i :: 0 <= i < |name| ==> name[i] != '\"'
    ensures TakeHeader("id=\"" + name + "\" " + more) == Header(Some(name), " " + more, false) <==> |name| <= 254
  {
    NameInQuotes(name, '\"', " " + more);
    assert "id=\"" + name + "\" " + more == "id=" + ['\"'] + name + ['\"'] + (" " + more);
    hide TakeHeader;
  }

  // ------------------------------------------------------------------ texts

  /** A last line without a newline is read with the end character behind it. */
  lemma {:induction false} LastLine(t: string)
    requires Plain(t) && forall i :: 0 <= i < |t| ==> !IsNewline(t[i])
    ensures TakeText(t, false) == Taken(t + [255 as char], "", true)
  {
    if t == "" {
      assert "" + [255 as char] == [255 as char];
    } else {
      LastLine(t[1..]);
      assert [t[0]] + (t[1..] + [255 as char]) == t + [255 as char];
    }
  }

  /** A disabled section, word by word. */
  lemma PrintedDisabled(e: Element)
    requires e.IsAuto()
    ensures SaveAll(Disable(e).children) == "\n#if 0 //" + SaveAll(e.children) + "\n#endif\n"
  {
    DisableMeaning(e.children);
  }

  /** A text ends in front of a marker at the start of a line, and a carriage return ends a line as well. */
  lemma {:induction false} LineEnds(t: string, c: char, m: string, more: string)
    requires Plain(t) && forall i :: 0 <= i < |t| ==> t[i] != '\n' && t[i] != '\r'
    requires (c == '\n' || c == '\r') && (m == "//<[[" || m == "//]]>")
    ensures TakeText(t + [c] + (m + more), false) == Taken(t + [c], m + more, false)
  {
    var s := t + [c] + (m + more);
    if t == "" {
      assert s[1..] == m + more;
      TakeMarker(m, more);
      assert "" + [c] == [c] + "";
    } else {
      assert s[1..] == t[1..] + [c] + (m + more);
      LineEnds(t[1..], c, m, more);
      assert [t[0]] + (t[1..] + [c]) == t + [c];
    }
  }

  /** Blanks and tabs in front of a word are passed over. */
  lemma {:induction false} BlanksPassed(blanks: string, s: string)
    requires forall i :: 0 <= i < |blanks| ==> blanks[i] == ' ' || blanks[i] == '\t'
    requires s != "" && s[0] != ' ' && s[0] != '\t'
    ensures SkipBlanks(blanks + s) == s
  {
    if blanks == "" {
      assert blanks + s == s;
    } else {
      assert (blanks + s)[1..] == blanks[1..] + s;
      BlanksPassed(blanks[1..], s);
    }
  }

  lemma BlanksChangeNothing(blanks: string, s: string, splitters: string)
    requires forall i :: 0 <= i < |blanks| ==> blanks[i] == ' ' || blanks[i] == '\t'
    requires s != "" && s[0] != ' ' && s[0] != '\t'
    ensures GetWord(blanks + s, splitters, NAME_MAX) == GetWord(s, splitters, NAME_MAX)
  {
    BlanksPassed(blanks, s);
    BlanksPassed("", s);
    assert "" + s == s;
    hide SkipBlanks, TakeWord;
  }

  /** So the section word may stand behind some of them. */
  lemma WordBehindBlanks(blanks: string, word: string, rest: string)
    requires forall i :: 0 <= i < |blanks| ==> blanks[i] == ' ' || blanks[i] == '\t'
    requires word == "AutoGenCode" || word == "UserCode"
    ensures TakeChildren("//<[[" + (blanks + (word + " " + rest)), false)
      == TakeSection(if word == "UserCode" then User else Auto, Taken(word, rest, false))
  {
    var inner := word + " " + rest;
    assert inner[0] == word[0];
    WordTaken(word, ' ', rest);
    hide TakeN, GetWord, SkipBlanks, TakeChildren, TakeSection;
    BlanksChangeNothing(blanks, inner, TYPE_SPLITTERS);
    TakeMarker(OPEN, blanks + inner);
    SectionWord("//<[[" + (blanks + inner), blanks + inner, word, rest);
  }

  /** An end character in front of a word is lost. */
  lemma WordBehindEndChar(word: string, c: char, rest: string)
    requires word != "" && |word| < 255 && Plain(word) && !IsBlank(word[0])
    requires forall i :: 0 <= i < |word| ==> !IsNewline(word[i]) && word[i] !in TYPE_SPLITTERS
    requires c == ' ' || c == '\t' || c == ',' || c == ';'
    ensures GetWord([255 as char] + (word + [c] + rest), TYPE_SPLITTERS, NAME_MAX) == Taken(word, rest, false)
  {
    var s := word + [c] + rest;
    assert c in TYPE_SPLITTERS;
    TakeWordBack(word, c, rest, TYPE_SPLITTERS, NAME_MAX);
    assert ([255 as char] + s)[1..] == s && SkipBlanks([255 as char] + s) == [255 as char] + s;
    hide TakeWord;
  }

  // ------------------------------------------------------------ the end of a file

  lemma {:induction false} TakeWordToEnd(w: string, splitters: string, n: nat)
    requires Plain(w) && |w| < n && forall i :: 0 <= i < |w| ==> !IsNewline(w[i]) && w[i] !in splitters
    ensures TakeWord(w, splitters, n) == Taken(w, "", true)
  {
    if w == "" {
    } else {
      TakeWordToEnd(w[1..], splitters, n - 1);
    }
  }

  /** A word that ends the file is pushed back, and the file goes on with it. */
  lemma WordAtEnd(w: string)
    requires w != "" && w != "id" && |w| < 255 && Plain(w)
    requires forall i :: 0 <= i < |w| ==> w[i] !in "= \t\n\r"
    ensures TakeHeader(w) == Header(None, w, false) && TakeHeader("") == Header(None, "", true)
  {
    forall i | 0 <= i < |w| ensures !IsNewline(w[i]) && w[i] !in ID_SPLITTERS && !IsBlank(w[i]) {
      assert w[i] !in "= \t\n\r";
      assert '\n' in "= \t\n\r" && '\r' in "= \t\n\r" && ' ' in "= \t\n\r" && '\t' in "= \t\n\r";
    }
    TakeWordToEnd(w, ID_SPLITTERS, NAME_MAX);
    assert SkipBlanks(w) == w && w + "" == w && "" + "" == "";
    hide TakeWord;
  }

  /** A name that is not closed reaches to the end of the file and takes the end character. */
  lemma {:induction false} UnclosedName(name: string, quote: char, n: nat)
    requires |name| < n && quote != 255 as char && forall i :: 0 <= i < |name| ==> name[i] != quote
    ensures TakeName(name, quote, n) == Taken(name + [255 as char], "", true)
  {
    if name == "" {
    } else {
      UnclosedName(name[1..], quote, n - 1);
      assert [name[0]] + (name[1..] + [255 as char]) == name + [255 as char];
    }
  }

  // --------------------------------------------------- what cannot be read

  /** A section with an unknown word behind its first text is left out, and reading goes on behind that word. */
  lemma UnreadableIsLeftOut(kind: Kind, t: string, word: string, rest: string)
    requires WholeLines(t) && !StartsMarker(t) && KeepsFirstWord(t)
    requires word != "" && |word| < 255 && Plain(word) && word != "AutoGenCode" && word != "UserCode"
    requires forall i :: 0 <= i < |word| ==> !IsNewline(word[i]) && word[i] !in " \t,;\r\n"
    ensures var more := "//<[[" + (word + " " + rest);
      TakeSection(kind, Taken(KindWord(kind), t + more, false)) == TakeChildren(rest, false)
  {
    var more := "//<[[" + (word + " " + rest);
    OtherWord(word, rest);
    PlainHeaderBack(t, more);
    assert more[..5] == OPEN;
    TextChildBack(t, more);
    hide TakeHeader, TakeChildren;
  }
}
