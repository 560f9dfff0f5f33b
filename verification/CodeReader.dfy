/**
 The loading routines of common/codecombin.cpp as they run: a file with a
 cursor, push-back and an end-of-file flag, and loops over its characters.
 Each is tied to its function of CodeGrammar.
*/
module CodeReader {

  import opened CodeTree
  import opened CodeGrammar
  import opened Wrappers

  /** Room in the text buffer before it is flushed into the element. */
  const BUFFER_MAX := 4096 - 6

  function Behind(text: string, t: Taken): Taken {
    Taken(text + t.text, t.rest, t.eof)
  }

  lemma {:induction false} TakeNHasNoEnd(s: string, n: nat)
    ensures END_CHAR !in TakeN(s, n).text
  {
    if n == 0 || s == "" || s[0] == END_CHAR || IsNewline(s[0]) {
    } else {
      TakeNHasNoEnd(s[1..], n - 1);
    }
  }

  lemma {:induction false} TakeWordHasNoEnd(s: string, splitters: string, n: nat)
    ensures END_CHAR !in TakeWord(s, splitters, n).text
  {
    if n == 0 || s == "" || s[0] == END_CHAR || IsNewline(s[0]) || s[0] in splitters {
    } else {
      TakeWordHasNoEnd(s[1..], splitters, n - 1);
    }
  }

  lemma BehindStep(text: string, s: string, n: nat)
    requires n > 0 && s != "" && s[0] != END_CHAR && !IsNewline(s[0])
    ensures Behind(text, TakeN(s, n)) == Behind(text + [s[0]], TakeN(s[1..], n - 1))
  {
    var t := TakeN(s[1..], n - 1).text;
    assert text + ([s[0]] + t) == (text + [s[0]]) + t;
  }

  lemma BehindEnd(text: string, s: string, n: nat)
    requires n == 0 || s == "" || s[0] == END_CHAR || IsNewline(s[0])
    ensures Behind(text, TakeN(s, n)) ==
      if n == 0 then Taken(text, s, false)
      else if s == "" then Taken(text, "", true)
      else Taken(text, if s[0] == END_CHAR then s[1..] else s, false)
  {
    assert text + "" == text;
  }

  lemma WordStep(text: string, s: string, splitters: string, n: nat)
    requires n > 0 && s != "" && s[0] != END_CHAR && !IsNewline(s[0]) && s[0] !in splitters
    ensures Behind(text, TakeWord(s, splitters, n)) == Behind(text + [s[0]], TakeWord(s[1..], splitters, n - 1))
  {
    var t := TakeWord(s[1..], splitters, n - 1).text;
    assert text + ([s[0]] + t) == (text + [s[0]]) + t;
  }

  lemma WordEnd(text: string, s: string, splitters: string, n: nat)
    requires n == 0 || s == "" || s[0] == END_CHAR || IsNewline(s[0]) || s[0] in splitters
    ensures Behind(text, TakeWord(s, splitters, n)) ==
      if n == 0 then Taken(text, s, false)
      else if s == "" then Taken(text, "", true)
      else Taken(text, if s[0] != END_CHAR && IsNewline(s[0]) then s else s[1..], false)
  {
    assert text + "" == text;
  }

  lemma BehindNothing(t: Taken)
    ensures Behind("", t) == t
  {
  }

  class File {
    var rest: string
    var eof: bool

    constructor (content: string)
      ensures rest == content && !eof
    {
      rest := content;
      eof := false;
    }

    method Getc() returns (c: char)
      modifies this
      ensures old(rest) == "" ==> c == END_CHAR && rest == "" && eof
      ensures old(rest) != "" ==> c == old(rest)[0] && rest == old(rest)[1..] && eof == old(eof)
    {
      if rest == "" {
        eof := true;
        return END_CHAR;
      }
      c := rest[0];
      rest := rest[1..];
    }

    method Ungetc(c: char)
      modifies this
      ensures if c == END_CHAR then rest == old(rest) && eof == old(eof) else rest == [c] + old(rest) && !eof
    {
      if c != END_CHAR {
        rest := [c] + rest;
        eof := false;
      }
    }

    method GetNStr(n: nat) returns (str: string)
      requires !eof
      modifies this
      ensures TakeN(old(rest), n) == Taken(str, rest, eof)
      ensures END_CHAR !in str
    {
      hide TakeN, Behind;
      TakeNHasNoEnd(rest, n);
      str := "";
      BehindNothing(TakeN(rest, n));
      while |str| < n && !eof
        invariant |str| <= n
        invariant !eof && TakeN(old(rest), n) == Behind(str, TakeN(rest, n - |str|))
        decreases n - |str|
      {
        ghost var before := rest;
        var c := Getc();
        if c == END_CHAR {
          BehindEnd(str, before, n - |str|);
          return;
        }
        if IsNewline(c) {
          BehindEnd(str, before, n - |str|);
          Ungetc(c);
          return;
        }
        BehindStep(str, before, n - |str|);
        str := str + [c];
      }
      BehindEnd(str, rest, 0);
    }

    method UngetNStr(str: string)
      requires END_CHAR !in str
      modifies this
      ensures rest == str + old(rest) && eof == (old(eof) && str == "")
    {
      var n := |str|;
      while n > 0
        invariant 0 <= n <= |str|
        invariant rest == str[n..] + old(rest)
        invariant eof == (old(eof) && n == |str|)
      {
        n := n - 1;
        Ungetc(str[n]);
        assert [str[n]] + (str[n + 1..] + old(rest)) == str[n..] + old(rest);
      }
    }

    /** Past the blanks; the character behind them is pushed back, unless it looks like the end. */
    method PassBlanks()
      requires !eof
      modifies this
      ensures var t := SkipBlanks(old(rest));
        if t == "" then rest == "" && eof
        else !eof && rest == if t[0] == END_CHAR then t[1..] else t
    {
      var ch: char := 0 as char;
      while !eof
        invariant !eof ==> SkipBlanks(rest) == SkipBlanks(old(rest))
        invariant eof ==> SkipBlanks(old(rest)) == "" && rest == "" && ch == END_CHAR
        decreases |rest|, !eof
      {
        ghost var before := rest;
        ch := Getc();
        if !IsBlank(ch) {
          assert before != "" ==> before == [ch] + rest;
          break;
        }
      }
      Ungetc(ch);
    }

    method ReadWord(splitters: string, n: nat) returns (str: string)
      requires !eof
      modifies this
      ensures TakeWord(old(rest), splitters, n) == Taken(str, rest, eof)
      ensures END_CHAR !in str
    {
      hide TakeWord, Behind;
      TakeWordHasNoEnd(rest, splitters, n);
      str := "";
      BehindNothing(TakeWord(rest, splitters, n));
      while |str| < n && !eof
        invariant |str| <= n
        invariant !eof && TakeWord(old(rest), splitters, n) == Behind(str, TakeWord(rest, splitters, n - |str|))
        decreases n - |str|
      {
        ghost var before := rest;
        var c := Getc();
        if c == END_CHAR {
          WordEnd(str, before, splitters, n - |str|);
          return;
        }
        if IsNewline(c) {
          WordEnd(str, before, splitters, n - |str|);
          Ungetc(c);
          return;
        }
        if c in splitters {
          WordEnd(str, before, splitters, n - |str|);
          return;
        }
        WordStep(str, before, splitters, n - |str|);
        str := str + [c];
      }
      WordEnd(str, rest, splitters, 0);
    }

    method GetWord(splitters: string, n: nat) returns (str: string)
      requires !eof
      modifies this
      ensures CodeGrammar.GetWord(old(rest), splitters, n) == Taken(str, rest, eof)
      ensures END_CHAR !in str
    {
      PassBlanks();
      if eof { return ""; }
      str := ReadWord(splitters, n);
    }
  }

  // ------------------------------------------------------------ one text

  /** Adds a piece of text to what the element has; an empty piece changes nothing. */
  function AppendText(text: Option<string>, piece: string): Option<string> {
    if piece == "" then text
    else if text == None then Some(piece)
    else Some(text.value + piece)
  }

  function Value(text: Option<string>): string {
    if text == None then "" else text.value
  }

  /** One round of reading text: the start of a line, or one character.  A marker is pushed back. */
  method TextRound(fp: File, newline: bool) returns (piece: string, next: bool, marker: bool)
    requires !fp.eof
    modifies fp
    ensures TakeText(old(fp.rest), newline)
         == if marker || fp.eof then Taken(piece, fp.rest, fp.eof) else Behind(piece, TakeText(fp.rest, next))
    ensures marker ==> piece == "" && !fp.eof
    ensures !marker ==> |fp.rest| < |old(fp.rest)| || fp.eof || (newline && !next && |fp.rest| <= |old(fp.rest)|)
  {
    next, marker := false, false;
    if newline {
      piece := fp.GetNStr(5);
      if !(|piece| < 5 || (piece != OPEN && piece != CLOSE)) {
        fp.UngetNStr(piece);
        piece, marker := "", true;
      }
    } else {
      var c := fp.Getc();
      next := IsNewline(c);
      piece := [c];
    }
  }

  /** Reads one text element in pieces of the buffer's size. */
  method LoadText(fp: File) returns (text: Option<string>)
    modifies fp
    ensures old(fp.eof) ==> text == None && fp.rest == old(fp.rest) && fp.eof
    ensures !old(fp.eof) ==> var x := TakeText(old(fp.rest), false);
      Text(text) == TextOf(x.text) && fp.rest == x.rest && fp.eof == x.eof
  {
    text := None;
    var buffer := "";
    var newline, marker := false, false;
    ghost var goal := if fp.eof then Taken("", fp.rest, true) else TakeText(fp.rest, false);
    ghost var got := "";
    assert Behind("", goal) == goal by { assert "" + goal.text == goal.text; }
    while !fp.eof && !marker
      invariant got == Value(text) + buffer && (text != None ==> text.value != "")
      invariant goal == if marker || fp.eof then Taken(got, fp.rest, fp.eof)
        else Behind(got, TakeText(fp.rest, newline))
      decreases !marker, |fp.rest|, !fp.eof, newline
    {
      var piece;
      ghost var before := TakeText(fp.rest, newline);
      piece, newline, marker := TextRound(fp, newline);
      BehindTwice(got, piece, TakeText(fp.rest, newline));
      assert Value(text) + (buffer + piece) == got + piece;
      buffer := buffer + piece;
      got := got + piece;
      if |buffer| >= BUFFER_MAX {
        assert Value(AppendText(text, buffer)) == got;
        text := AppendText(text, buffer);
        buffer := "";
      }
    }
    assert goal == Taken(got, fp.rest, fp.eof);
    if |buffer| > 0 {
      text := AppendText(text, buffer);
    }
    assert Value(text) == got;
  }

  lemma BehindTwice(a: string, b: string, t: Taken)
    ensures Behind(a, Behind(b, t)) == Behind(a + b, t)
  {
    assert a + (b + t.text) == a + b + t.text;
  }

  // -------------------------------------------------------- one section

  method LoadHeader(fp: File) returns (name: Option<string>)
    modifies fp
    ensures Header(name, fp.rest, fp.eof)
         == if old(fp.eof) then Header(None, old(fp.rest), true) else TakeHeader(old(fp.rest))
  {
    name := None;
    if fp.eof { return; }
    var word := fp.GetWord(ID_SPLITTERS, NAME_MAX);
    if word == "id" {
      var quote := PassToQuote(fp);
      var read := ReadName(fp, quote);
      if |read| > 0 {
        name := Some(read);
      }
    } else if |word| > 0 {
      fp.UngetNStr(word);
    }
  }

  method PassToQuote(fp: File) returns (quote: char)
    modifies fp
    ensures old(fp.eof) ==> fp.rest == old(fp.rest) && fp.eof
    ensures !old(fp.eof) ==> FindQuote(old(fp.rest)) == (quote, Taken("", fp.rest, fp.eof))
    ensures !fp.eof ==> quote != END_CHAR
  {
    quote := 0 as char;  // left unset by the source when the file is at its end
    while !fp.eof
      invariant old(fp.eof) ==> fp.eof && fp.rest == old(fp.rest)
      invariant !fp.eof ==> FindQuote(fp.rest) == FindQuote(old(fp.rest))
      invariant fp.eof && !old(fp.eof) ==> FindQuote(old(fp.rest)) == (quote, Taken("", fp.rest, true))
      decreases |fp.rest|, !fp.eof
    {
      quote := fp.Getc();
      if quote == '\"' || quote == '\'' { break; }
    }
  }

  method ReadName(fp: File, quote: char) returns (name: string)
    requires !fp.eof ==> quote != END_CHAR
    modifies fp
    ensures old(fp.eof) ==> name == "" && fp.rest == old(fp.rest) && fp.eof
    ensures !old(fp.eof) ==> TakeName(old(fp.rest), quote, NAME_MAX) == Taken(name, fp.rest, fp.eof)
  {
    name := "";
    ghost var goal := if fp.eof then Taken("", fp.rest, true) else TakeName(fp.rest, quote, NAME_MAX);
    assert Behind("", goal) == goal by { assert "" + goal.text == goal.text; }
    while !fp.eof && |name| < NAME_MAX
      invariant |name| <= NAME_MAX
      invariant goal == if fp.eof then Taken(name, fp.rest, true)
        else Behind(name, TakeName(fp.rest, quote, NAME_MAX - |name|))
      decreases NAME_MAX - |name|
    {
      ghost var before := TakeName(fp.rest, quote, NAME_MAX - |name|);
      var c := fp.Getc();
      if c == quote {
        assert name + "" == name;
        break;
      }
      BehindTwice(name, [c], TakeName(fp.rest, quote, NAME_MAX - |name| - 1));
      name := name + [c];
    }
    assert name + "" == name;
  }

  function Add(children: seq<Element>, p: Parsed): Parsed {
    p.(children := children + p.children)
  }

  lemma AddTwice(a: seq<Element>, b: seq<Element>, p: Parsed)
    ensures Add(a, Add(b, p)) == Add(a + b, p)
  {
    assert a + (b + p.children) == a + b + p.children;
  }

  /**
   What one round of reading children comes to: the end of this element, an
   unknown word, or the kind of the next child.
  */
  datatype Next = Closed | Unknown | TextNext | SectionNext(kind: Kind)

  method NextChild(fp: File) returns (next: Next)
    requires !fp.eof
    modifies fp
    ensures next == Closed ==> TakeChildren(old(fp.rest), false) == Parsed(true, [], fp.rest, fp.eof)
    ensures next == Unknown ==> TakeChildren(old(fp.rest), false) == Parsed(false, [], fp.rest, fp.eof)
    ensures next == TextNext ==>
      (&& |fp.rest| <= |old(fp.rest)|
       && var x := if fp.eof then Taken("", fp.rest, true) else TakeText(fp.rest, false);
          TakeChildren(old(fp.rest), false) == Add([TextOf(x.text)], TakeChildren(x.rest, x.eof)))
    ensures next.SectionNext? ==>
      (&& |fp.rest| < |old(fp.rest)|
       && TakeChildren(old(fp.rest), false)
            == TakeSection(next.kind, Taken(KindWord(next.kind), fp.rest, fp.eof)))
  {
    var word := fp.GetNStr(5);
    if |word| == 5 && word == CLOSE {
      return Closed;
    } else if |word| == 5 && word == OPEN {
      word := fp.GetWord(TYPE_SPLITTERS, NAME_MAX);
      if |word| == 0 {
        return Closed;
      } else if word == KindWord(Auto) {
        return SectionNext(Auto);
      } else if word == KindWord(User) {
        return SectionNext(User);
      }
      return Unknown;
    }
    fp.UngetNStr(word);
    return TextNext;
  }

  /** Reads an element's name and its children. */
  method LoadCompound(fp: File) returns (ok: bool, name: Option<string>, children: seq<Element>)
    modifies fp
    ensures var h := if old(fp.eof) then Header(None, old(fp.rest), true) else TakeHeader(old(fp.rest));
      name == h.name && TakeChildren(h.rest, h.eof) == Parsed(ok, children, fp.rest, fp.eof)
    decreases |fp.rest|
  {
    name := LoadHeader(fp);
    ok, children := true, [];
    ghost var top := |fp.rest|;
    ghost var goal := TakeChildren(fp.rest, fp.eof);
    assert Add([], goal) == goal by { assert [] + goal.children == goal.children; }
    while !fp.eof
      invariant |fp.rest| <= top
      invariant goal == Add(children, TakeChildren(fp.rest, fp.eof))
      decreases |fp.rest|, !fp.eof
    {
      assert children + [] == children;
      var next := NextChild(fp);
      match next
      case Closed =>
        return;
      case Unknown =>
        ok := false;
        return;
      case TextNext =>
        var text := LoadText(fp);
        AddTwice(children, [Text(text)], TakeChildren(fp.rest, fp.eof));
        children := children + [Text(text)];
      case SectionNext(kind) =>
        var read, inner, nested := LoadCompound(fp);
        if read {
          AddTwice(children, [Section(kind, inner, nested)], TakeChildren(fp.rest, fp.eof));
          children := children + [Section(kind, inner, nested)];
        }
    }
    assert children + [] == children;
  }

  /** The name is one that stands where a section has its name. */
  method LoadFromFile(content: string) returns (name: Option<string>, children: Option<seq<Element>>)
    ensures name == TakeHeader(content).name && children == Load(content)
  {
    var fp := new File(content);
    var ok, id, read := LoadCompound(fp);
    name, children := id, if ok then Some(read) else None;
  }
}
