/** What several modules share: bytes, the two halves of an id, and lists without repetitions. */
module Common {

  type byte = x: int | 0 <= x < 256

  const TYPE_UNIT := 0x1_0000

  /** ID2TYPE: the upper half of a 32-bit id. */
  function TypeOf(id: int): int { (id % 0x1_0000_0000) / TYPE_UNIT }

  /** The lower half of an id. */
  function Low(id: int): int { id % TYPE_UNIT }

  ghost predicate Distinct<T>(s: seq<T>) {
    forall i, j :: 0 <= i < j < |s| ==> s[i] != s[j]
  }
}
