/**
 The tree of a source file kept by the code generator (include/codecombin.h):
 texts, generated sections and user sections, and how it is printed
 (common/codecombin.cpp).
*/
module CodeTree {

  import opened Wrappers

  datatype Kind = Auto | User

  /** A text may be null: an element that was never given one. */
  datatype Element =
    | Text(text: Option<string>)
    | Section(kind: Kind, name: Option<string>, children: seq<Element>)
  {
    predicate IsAuto() { Section? && kind == Auto }

    predicate IsNamedAuto() { IsAuto() && name.Some? }
  }

  const OPEN := "//<[["
  const CLOSE := "//]]>"

  function KindWord(k: Kind): string {
    if k == Auto then "AutoGenCode" else "UserCode"
  }

  function Header(k: Kind, name: Option<string>): string {
    OPEN + KindWord(k) + " " + if name.Some? then "id=\"" + name.value + "\" " else ""
  }

  function Save(e: Element): string {
    match e
    case Text(t) => if t.Some? then t.value else ""
    case Section(k, name, children) => Header(k, name) + SaveAll(children) + CLOSE
  }

  function SaveAll(es: seq<Element>): string {
    if es == [] then "" else Save(es[0]) + SaveAll(es[1..])
  }

  lemma {:induction false} SaveAllConcat(a: seq<Element>, b: seq<Element>)
    ensures SaveAll(a + b) == SaveAll(a) + SaveAll(b)
  {
    if a == [] {
      assert a + b == b;
    } else {
      assert (a + b)[1..] == a[1..] + b;
      SaveAllConcat(a[1..], b);
    }
  }
}
