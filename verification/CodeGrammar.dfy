/**
 How a printed tree is read back (common/codecombin.cpp), as functions of the
 characters still to come.  A pushed-back character goes in front of them.
 The end of the file reads as the character 255, which the source stores in a
 signed char and compares with -1; a real character 255 looks the same.
*/
module CodeGrammar {

  import opened CodeTree
  import opened Wrappers

  const END_CHAR: char := 255 as char
  const NAME_MAX := 255

  predicate IsNewline(c: char) { c == '\n' || c == '\r' }

  predicate IsBlank(c: char) { c == ' ' || c == '\t' }

  /** What a reading step took, what is left, and whether the end of the file was met. */
  datatype Taken = Taken(text: string, rest: string, eof: bool)

  /** Up to n characters, stopping in front of a newline and behind an end character. */
  function TakeN(s: string, n: nat): (r: Taken)
    ensures |r.text| + |r.rest| <= |s| && |r.text| <= n
    ensures r.eof ==> r.rest == "" && |r.text| < n
  {
    if n == 0 then Taken("", s, false)
    else if s == "" then Taken("", "", true)
    else if s[0] == END_CHAR then Taken("", s[1..], false)
    else if IsNewline(s[0]) then Taken("", s, false)
    else
      var r := TakeN(s[1..], n - 1);
      Taken([s[0]] + r.text, r.rest, r.eof)
  }

  function SkipBlanks(s: string): (r: string)
    ensures |r| <= |s|
    ensures r != "" ==> !IsBlank(r[0])
  {
    if s != "" && IsBlank(s[0]) then SkipBlanks(s[1..]) else s
  }

  /** Characters up to a splitter, which is dropped, or a newline, which is not. */
  function TakeWord(s: string, splitters: string, n: nat): (r: Taken)
    ensures |r.text| + |r.rest| <= |s|
    ensures r.eof ==> r.rest == ""
  {
    if n == 0 then Taken("", s, false)
    else if s == "" then Taken("", "", true)
    else if s[0] == END_CHAR then Taken("", s[1..], false)
    else if IsNewline(s[0]) then Taken("", s, false)
    else if s[0] in splitters then Taken("", s[1..], false)
    else
      var r := TakeWord(s[1..], splitters, n - 1);
      Taken([s[0]] + r.text, r.rest, r.eof)
  }

  /** An end character met while skipping blanks is not pushed back. */
  function GetWord(s: string, splitters: string, n: nat): (r: Taken)
    ensures |r.text| + |r.rest| <= |s|
    ensures r.eof ==> r.rest == ""
  {
    var t := SkipBlanks(s);
    if t == "" then Taken("", "", true)
    else TakeWord(if t[0] == END_CHAR then t[1..] else t, splitters, n)
  }

  const TYPE_SPLITTERS := " \t\r\n,;"
  const ID_SPLITTERS := "= \t\n\r"

  predicate IsMarker(s: string) { s == OPEN || s == CLOSE }

  /**
   The text of one element.  A marker ends it only at the start of a line; past
   the last character comes an end character.
  */
  function TakeText(s: string, newline: bool): (r: Taken)
    ensures |r.rest| <= |s|
    ensures !newline ==> r.eof || |r.rest| < |s|
    decreases |s|, newline
  {
    if newline then
      var t := TakeN(s, 5);
      if |t.text| == 5 && IsMarker(t.text) then Taken("", t.text + t.rest, false)
      else if t.eof then Taken(t.text, t.rest, true)
      else
        var r := TakeText(t.rest, false);
        Taken(t.text + r.text, r.rest, r.eof)
    else if s == "" then Taken([END_CHAR], "", true)
    else
      var r := TakeText(s[1..], IsNewline(s[0]));
      Taken([s[0]] + r.text, r.rest, r.eof)
  }

  // ------------------------------------------------------ the section header

  /** Up to and including a quote character. */
  function FindQuote(s: string): (r: (char, Taken))
    ensures |r.1.rest| <= |s|
    ensures r.1.eof ==> r.1.rest == ""
  {
    if s == "" then (END_CHAR, Taken("", "", true))
    else if s[0] == '\"' || s[0] == '\'' then (s[0], Taken("", s[1..], false))
    else FindQuote(s[1..])
  }

  function TakeName(s: string, quote: char, n: nat): (r: Taken)
    ensures |r.rest| <= |s|
    ensures r.eof ==> r.rest == ""
  {
    if n == 0 then Taken("", s, false)
    else if s == "" then Taken(if quote == END_CHAR then "" else [END_CHAR], "", true)
    else if s[0] == quote then Taken("", s[1..], false)
    else
      var r := TakeName(s[1..], quote, n - 1);
      Taken([s[0]] + r.text, r.rest, r.eof)
  }

  datatype Header = Header(name: Option<string>, rest: string, eof: bool)

  /** A name if the first word is id; otherwise that word is pushed back, but not the splitter behind it. */
  function TakeHeader(s: string): (r: Header)
    ensures |r.rest| <= |s|
  {
    var w := GetWord(s, ID_SPLITTERS, NAME_MAX);
    if w.text == "id" then
      if w.eof then Header(None, w.rest, true)
      else
        var (quote, q) := FindQuote(w.rest);
        if q.eof then Header(None, q.rest, true)
        else
          var t := TakeName(q.rest, quote, NAME_MAX);
          Header(if t.text == "" then None else Some(t.text), t.rest, t.eof)
    else Header(None, w.text + w.rest, w.eof && w.text == "")
  }

  // ------------------------------------------------------------ the children

  datatype Parsed = Parsed(ok: bool, children: seq<Element>, rest: string, eof: bool)

  function TextOf(s: string): Element {
    Text(if s == "" then None else Some(s))
  }

  function TakeChildren(s: string, eof: bool): (r: Parsed)
    ensures |r.rest| <= |s|
    decreases |s|, !eof, 0
  {
    if eof then Parsed(true, [], s, true)
    else
      var t := TakeN(s, 5);
      if |t.text| == 5 && t.text == CLOSE then Parsed(true, [], t.rest, t.eof)
      else if |t.text| == 5 && t.text == OPEN then
        var w := GetWord(t.rest, TYPE_SPLITTERS, NAME_MAX);
        if w.text == "" then Parsed(true, [], w.rest, w.eof)
        else if w.text == KindWord(Auto) then TakeSection(Auto, w)
        else if w.text == KindWord(User) then TakeSection(User, w)
        else Parsed(false, [], w.rest, w.eof)
      else
        var e := t.eof && t.text == "";
        var x := if e then Taken("", t.rest, true) else TakeText(t.text + t.rest, false);
        var r := TakeChildren(x.rest, x.eof);
        r.(children := [TextOf(x.text)] + r.children)
  }

  /** A nested section and what follows it; one that cannot be read is left out. */
  function TakeSection(kind: Kind, w: Taken): (r: Parsed)
    ensures |r.rest| <= |w.rest|
    decreases |w.rest|, true, 1
  {
    var h := if w.eof then Header(None, w.rest, true) else TakeHeader(w.rest);
    var p := TakeChildren(h.rest, h.eof);
    var r := TakeChildren(p.rest, p.eof);
    if p.ok then r.(children := [Section(kind, h.name, p.children)] + r.children) else r
  }

  /** A whole document; None when a section word is unknown at its top level. */
  function Load(s: string): Option<seq<Element>> {
    var h := TakeHeader(s);
    var p := TakeChildren(h.rest, h.eof);
    if p.ok then Some(p.children) else None
  }
}
