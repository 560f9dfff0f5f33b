/**
 Forward Knuth-Morris-Pratt search of mgfc/mgctrl.cpp.

 The source has two copies of each routine, one comparing characters and one
 comparing `upper` of them.  Here one copy takes the comparison key as a
 parameter; `Exact` and `Upper` are the two keys the source uses (`MatchExact`,
 `MatchNoCaps`).  The failure table is an array of bytes, as in the source, so an
 entry above 255 is cut.
*/
module KmpSearch {

  import opened Common

  function Cut(x: nat): byte {
    (x % 256) as byte
  }

  function Exact(ch: char): char { ch }

  function Upper(ch: char): char {
    if 'a' < ch < 'z' then ((ch as int) + ('A' as int) - ('a' as int)) as char else ch
  }

  ghost function Keys(s: seq<char>, key: char -> char): (r: seq<char>)
    ensures |r| == |s|
    ensures forall i :: 0 <= i < |s| ==> r[i] == key(s[i])
  {
    seq(|s|, i requires 0 <= i < |s| => key(s[i]))
  }

  // ---------------------------------------------------------------- meaning

  /** The first k and the last k elements of s agree, and k is a proper length. */
  ghost predicate IsBorder(s: seq<char>, k: nat) {
    k < |s| && s[..k] == s[|s| - k..]
  }

  ghost function LongestBorderUpTo(s: seq<char>, k: nat): (r: nat)
    requires k < |s|
    ensures r <= k && IsBorder(s, r)
    ensures forall b: nat :: b <= k && IsBorder(s, b) ==> b <= r
  {
    if k == 0 || IsBorder(s, k) then k else LongestBorderUpTo(s, k - 1)
  }

  /** Length of the longest proper border of a non-empty sequence. */
  ghost function LongestBorder(s: seq<char>): (r: nat)
    requires s != []
    ensures IsBorder(s, r)
    ensures forall b: nat :: IsBorder(s, b) ==> b <= r
  {
    LongestBorderUpTo(s, |s| - 1)
  }

  ghost predicate OccursAt(t: seq<char>, p: seq<char>, q: int) {
    0 <= q <= |t| - |p| && t[q..q + |p|] == p
  }

  ghost predicate IsLeftmostOccurrence(t: seq<char>, p: seq<char>, r: int) {
    if r == -1 then forall q :: !OccursAt(t, p, q)
    else OccursAt(t, p, r) && forall q :: OccursAt(t, p, q) ==> r <= q
  }

  /** What the failure table should hold at index k. */
  ghost function BorderAt(p: seq<char>, k: nat): nat
    requires k < |p|
  {
    LongestBorder(p[..k + 1])
  }

  /** Every border of the first n prefixes can be stored in one byte. */
  ghost predicate BordersFit(p: seq<char>, n: nat)
    requires n <= |p|
  {
    forall k :: 0 <= k < n ==> BorderAt(p, k) < 256
  }

  ghost predicate HoldsBorders(p: seq<char>, tbl: seq<byte>, n: nat)
    requires n <= |tbl| <= |p|
  {
    forall k :: 0 <= k < n ==> tbl[k] as int == BorderAt(p, k)
  }

  /** What makes a fallback through the table move to the left. */
  predicate Falls(tbl: seq<byte>) {
    forall k :: 0 <= k < |tbl| ==> tbl[k] as int <= k
  }

  // ------------------------------------------- the two loops, as functions

  ghost function BuildFrom(p: seq<char>, tbl: seq<byte>, j: nat): (r: seq<byte>)
    requires 0 < |tbl| <= |p| && j < |tbl| && Falls(tbl)
    ensures |r| == |p| && Falls(r) && tbl <= r
    decreases |p| - |tbl|, j
  {
    if |tbl| == |p| then tbl
    else if p[j] == p[|tbl|] then BuildFrom(p, tbl + [Cut(j + 1)], j + 1)
    else if j > 0 then BuildFrom(p, tbl, tbl[j - 1] as nat)
    else BuildFrom(p, tbl + [0], 0)
  }

  ghost function FailureTable(p: seq<char>): (r: seq<byte>)
    requires p != []
    ensures |r| == |p| && Falls(r)
  {
    BuildFrom(p, [0], 0)
  }

  ghost function ScanFrom(t: seq<char>, p: seq<char>, tbl: seq<byte>, i: nat, j: nat): int
    requires i <= |t| && j < |p| == |tbl| && Falls(tbl)
    decreases |t| - i, j
  {
    if i == |t| then -1
    else if p[j] == t[i] then
      if j == |p| - 1 then i - |p| + 1 else ScanFrom(t, p, tbl, i + 1, j + 1)
    else if j > 0 then ScanFrom(t, p, tbl, i, tbl[j - 1] as nat)
    else ScanFrom(t, p, tbl, i + 1, 0)
  }

  ghost function Search(t: seq<char>, p: seq<char>): int
    requires p != []
  {
    ScanFrom(t, p, FailureTable(p), 0, 0)
  }

  // ------------------------------------------------------------- the methods

  method FailureForward(p: seq<char>, key: char -> char) returns (tbl: array<byte>, ghost steps: nat)
    requires p != []
    ensures fresh(tbl) && tbl[..] == FailureTable(Keys(p, key))
    ensures HoldsBorders(Keys(p, key), tbl[..], |p|) <==> BordersFit(Keys(p, key), |p|)
    ensures steps <= 2 * |p|
  {
    ghost var ks := Keys(p, key);
    var m := |p|;
    var i, j := 1, 0;
    tbl := new byte[m];
    tbl[0] := 0;
    steps := 0;
    assert tbl[..1] == [0];
    while i < m
      invariant 1 <= i <= m && 0 <= j < i
      invariant Falls(tbl[..i])
      invariant BuildFrom(ks, tbl[..i], j) == FailureTable(ks)
      invariant steps + 2 <= 2 * i - j
      decreases m - i, j
    {
      ghost var done := tbl[..i];
      if key(p[j]) == key(p[i]) {
        tbl[i] := Cut(j + 1);
        assert tbl[..i + 1] == done + [Cut(j + 1)];
        i, j := i + 1, j + 1;
      } else if j > 0 {
        j := tbl[j - 1] as int;
      } else {
        tbl[i] := 0;
        assert tbl[..i + 1] == done + [0];
        i := i + 1;
      }
      steps := steps + 1;
    }
    assert tbl[..] == tbl[..i];
    TableHoldsBorders(ks);
  }

  method MatchForward(t: seq<char>, p: seq<char>, key: char -> char) returns (ipos: int, ghost steps: nat)
    requires p != []
    ensures ipos == Search(Keys(t, key), Keys(p, key))
    ensures BordersFit(Keys(p, key), |p| - 1) ==> IsLeftmostOccurrence(Keys(t, key), Keys(p, key), ipos)
    ensures |p| <= 257 ==> IsLeftmostOccurrence(Keys(t, key), Keys(p, key), ipos)
    ensures FallsBackRight(Keys(p, key)) ==> IsLeftmostOccurrence(Keys(t, key), Keys(p, key), ipos)
    ensures steps <= 2 * |t|
  {
    hide IsLeftmostOccurrence, FallsBackRight, BordersFit;
    ghost var kt, kp := Keys(t, key), Keys(p, key);
    SearchIsLeftmost(kt, kp);
    ShortPatternsFit(kp);
    RightExactlyWhen(kp);
    var n, m := |t|, |p|;
    var i, j := 0, 0;
    ipos := -1;
    var tbl, _ := FailureForward(p, key);
    steps := 0;
    while i < n
      invariant 0 <= i <= n && 0 <= j < m && j <= i
      invariant ScanFrom(kt, kp, tbl[..], i, j) == Search(kt, kp)
      invariant ipos == -1
      invariant steps <= 2 * i - j
      decreases n - i, j
    {
      steps := steps + 1;
      if key(p[j]) == key(t[i]) {
        if j == m - 1 {
          ipos := i - m + 1;
          break;
        }
        i, j := i + 1, j + 1;
      } else if j > 0 {
        j := tbl[j - 1] as int;
      } else {
        i := i + 1;
      }
    }
  }

  /** The search with capitals. */
  method MatchExact(t: seq<char>, p: seq<char>) returns (ipos: int)
    requires p != []
    ensures |p| <= 257 ==> IsLeftmostOccurrence(t, p, ipos)
  {
    assert Keys(t, Exact) == t && Keys(p, Exact) == p;
    var r, _ := MatchForward(t, p, Exact);
    ipos := r;
  }

  /** The search without: an occurrence is a place where all characters agree under upper. */
  method MatchNoCaps(t: seq<char>, p: seq<char>) returns (ipos: int)
    requires p != []
    ensures |p| <= 257 && ipos == -1 ==> forall q :: !OccursNoCaps(t, p, q)
    ensures |p| <= 257 && ipos != -1 ==> OccursNoCaps(t, p, ipos) && forall q :: OccursNoCaps(t, p, q) ==> ipos <= q
  {
    forall q ensures OccursNoCaps(t, p, q) <==> OccursAt(Keys(t, Upper), Keys(p, Upper), q) {
      if 0 <= q <= |t| - |p| {
        var part, kp := Keys(t, Upper)[q..q + |p|], Keys(p, Upper);
        assert forall k :: 0 <= k < |p| ==> part[k] == Upper(t[q + k]) && kp[k] == Upper(p[k]);
      }
    }
    var r, _ := MatchForward(t, p, Upper);
    ipos := r;
  }

  ghost predicate OccursNoCaps(t: seq<char>, p: seq<char>, q: int) {
    0 <= q <= |t| - |p| && forall k :: 0 <= k < |p| ==> Upper(t[q + k]) == Upper(p[k])
  }

  // ----------------------------------------------------- border arithmetic

  lemma BorderShift(s: seq<char>, i: nat, k: nat)
    requires i < |s| && k < i
    ensures IsBorder(s[..i + 1], k + 1) <==> IsBorder(s[..i], k) && s[k] == s[i]
  {
    var a, b := s[..i], s[..i + 1];
    assert b[..k + 1] == a[..k] + [s[k]];
    assert b[i - k..] == a[i - k..] + [s[i]];
    if b[..k + 1] == b[i - k..] {
      assert b[..k + 1][..k] == b[i - k..][..k];
    }
  }

  lemma BorderOfBorder(s: seq<char>, j: nat, k: nat)
    requires IsBorder(s, j) && k < j
    ensures IsBorder(s[..j], k) <==> IsBorder(s, k)
  {
    assert s[..j][..k] == s[..k];
    assert s[..j][j - k..] == s[|s| - j..][j - k..] == s[|s| - k..];
  }

  lemma LongestBorderIs(s: seq<char>, k: nat)
    requires s != [] && IsBorder(s, k)
    requires forall b: nat :: k < b ==> !IsBorder(s, b)
    ensures LongestBorder(s) == k
  {
  }

  // ---------------------------------------------------- the table is right

  /** j is a border of the part already done and every longer one fails on the next element. */
  ghost predicate Candidate(p: seq<char>, i: nat, j: nat)
    requires i <= |p|
  {
    && IsBorder(p[..i], j)
    && (i < |p| ==> forall b: nat :: j < b && IsBorder(p[..i], b) ==> p[b] != p[i])
  }

  lemma CandidateMatches(p: seq<char>, i: nat, j: nat)
    requires i < |p| && Candidate(p, i, j) && p[j] == p[i]
    ensures BorderAt(p, i) == j + 1 && Candidate(p, i + 1, j + 1)
  {
    BorderShift(p, i, j);
    var s := p[..i + 1];
    forall b: nat | j + 1 < b ensures !IsBorder(s, b) {
      if b <= i { BorderShift(p, i, b - 1); }
    }
    LongestBorderIs(p[..i + 1], j + 1);
  }

  lemma CandidateFalls(p: seq<char>, i: nat, j: nat)
    requires i < |p| && Candidate(p, i, j) && p[j] != p[i] && 0 < j
    ensures Candidate(p, i, BorderAt(p, j - 1))
  {
    var f := LongestBorder(p[..j]);
    assert p[..i][..j] == p[..j];
    BorderOfBorder(p[..i], j, f);
    forall b: nat | f < b && IsBorder(p[..i], b) ensures p[b] != p[i] {
      if b < j { BorderOfBorder(p[..i], j, b); }
    }
  }

  lemma CandidateRunsOut(p: seq<char>, i: nat)
    requires i < |p| && Candidate(p, i, 0) && p[0] != p[i]
    ensures BorderAt(p, i) == 0 && Candidate(p, i + 1, 0)
  {
    var s := p[..i + 1];
    forall b: nat | 0 < b ensures !IsBorder(s, b) {
      if b <= i { BorderShift(p, i, b - 1); }
    }
    LongestBorderIs(p[..i + 1], 0);
  }

  lemma HoldsOneMore(p: seq<char>, tbl: seq<byte>, b: byte)
    requires |tbl| < |p| && Falls(tbl) && HoldsBorders(p, tbl, |tbl|) && b as nat == BorderAt(p, |tbl|)
    ensures HoldsBorders(p, tbl + [b], |tbl| + 1) && Falls(tbl + [b])
  {
    forall k | 0 <= k < |tbl| + 1 ensures (tbl + [b])[k] as int == BorderAt(p, k) {
      if k < |tbl| { assert tbl[k] as int == BorderAt(p, k); }
    }
  }

  lemma PrefixKeepsBorders(p: seq<char>, tbl: seq<byte>, r: seq<byte>)
    requires tbl <= r && |r| <= |p| && HoldsBorders(p, tbl, |tbl|)
    ensures HoldsBorders(p, r, |tbl|)
  {
    forall k | 0 <= k < |tbl| ensures r[k] as int == BorderAt(p, k) {
      assert r[k] == tbl[k];
    }
  }

  /** As far as the borders fit in a byte, the table holds them. */
  lemma {:induction false} BuildHoldsBorders(p: seq<char>, tbl: seq<byte>, j: nat, n: nat)
    requires 0 < |tbl| <= |p| && j < |tbl| && Falls(tbl)
    requires |tbl| <= n <= |p| && BordersFit(p, n)
    requires HoldsBorders(p, tbl, |tbl|) && Candidate(p, |tbl|, j)
    ensures HoldsBorders(p, BuildFrom(p, tbl, j), n)
    decreases |p| - |tbl|, j
  {
    var i := |tbl|;
    if i == n {
      PrefixKeepsBorders(p, tbl, BuildFrom(p, tbl, j));
    } else if p[j] == p[i] {
      CandidateMatches(p, i, j);
      assert BorderAt(p, i) < 256;
      HoldsOneMore(p, tbl, Cut(j + 1));
      BuildHoldsBorders(p, tbl + [Cut(j + 1)], j + 1, n);
    } else if j > 0 {
      CandidateFalls(p, i, j);
      assert tbl[j - 1] as int == BorderAt(p, j - 1);
      BuildHoldsBorders(p, tbl, tbl[j - 1] as nat, n);
    } else {
      CandidateRunsOut(p, i);
      HoldsOneMore(p, tbl, 0);
      BuildHoldsBorders(p, tbl + [0], 0, n);
    }
  }

  lemma TableStart(p: seq<char>)
    requires p != []
    ensures HoldsBorders(p, [0], 1) && Candidate(p, 1, 0)
  {
    LongestBorderIs(p[..1], 0);
  }

  lemma PrefixHolds(p: seq<char>, n: nat)
    requires 0 < n <= |p| && BordersFit(p, n)
    ensures HoldsBorders(p, FailureTable(p), n)
  {
    TableStart(p);
    BuildHoldsBorders(p, [0], 0, n);
  }

  /** The byte table is the table of longest borders exactly when they all fit in a byte. */
  lemma TableHoldsBorders(p: seq<char>)
    requires p != []
    ensures HoldsBorders(p, FailureTable(p), |p|) <==> BordersFit(p, |p|)
  {
    if BordersFit(p, |p|) { PrefixHolds(p, |p|); }
  }

  // --------------------------------------------------- the matcher is right

  /** p[..j] ends at i, and nothing that starts before it is an occurrence. */
  ghost predicate Aligned(t: seq<char>, p: seq<char>, i: nat, j: nat) {
    && j <= i <= |t| && j < |p|
    && t[i - j..i] == p[..j]
    && forall q :: OccursAt(t, p, q) ==> i - j <= q
  }

  /** An occurrence starting inside the match so far either continues it or shows a border of it. */
  lemma OccurrenceMeetsMatch(t: seq<char>, p: seq<char>, i: nat, j: nat, q: int)
    requires i < |t| && Aligned(t, p, i, j) && OccursAt(t, p, q) && q < i
    ensures q == i - j ==> p[j] == t[i]
    ensures q != i - j ==> IsBorder(p[..j], i - q)
  {
    var b := i - q;
    assert b <= j;
    assert t[q..q + |p|][b] == t[i];
    if b != j {
      assert p[..j][..b] == t[q..q + |p|][..b] == t[q..i];
      assert t[q..i] == t[i - j..i][j - b..] == p[..j][j - b..];
    }
  }

  lemma AlignedFalls(t: seq<char>, p: seq<char>, i: nat, j: nat)
    requires i < |t| && Aligned(t, p, i, j) && p[j] != t[i] && 0 < j
    ensures Aligned(t, p, i, BorderAt(p, j - 1))
  {
    var f := LongestBorder(p[..j]);
    assert t[i - f..i] == t[i - j..i][j - f..] == p[..j][j - f..] == p[..f];
    forall q | OccursAt(t, p, q) ensures i - f <= q {
      if q < i - f { OccurrenceMeetsMatch(t, p, i, j, q); }
    }
  }

  lemma AlignedNow(t: seq<char>, p: seq<char>, i: nat, k: nat)
    requires k <= i <= |t| && k < |p| && t[i - k..i] == p[..k] && forall q :: OccursAt(t, p, q) ==> i - k <= q
    ensures Aligned(t, p, i, k)
  {
    hide OccursAt;
  }

  lemma OccursNow(t: seq<char>, p: seq<char>, i: nat)
    requires 0 < |p| <= i <= |t| && t[i - |p|..i] == p[..|p|] && forall q :: OccursAt(t, p, q) ==> i - |p| <= q
    ensures IsLeftmostOccurrence(t, p, i - |p|)
  {
    assert p[..|p|] == p;
    assert OccursAt(t, p, i - |p|);
    hide OccursAt;
  }

  lemma NoneLeft(t: seq<char>, p: seq<char>, j: nat)
    requires Aligned(t, p, |t|, j)
    ensures IsLeftmostOccurrence(t, p, -1)
  {
  }

  lemma MatchAligns(t: seq<char>, p: seq<char>, i: nat, j: nat)
    requires i < |t| && Aligned(t, p, i, j) && p[j] == t[i]
    ensures if j + 1 < |p| then Aligned(t, p, i + 1, j + 1) else IsLeftmostOccurrence(t, p, i - j)
  {
    assert t[i - j..i + 1] == t[i - j..i] + [t[i]] == p[..j + 1];
    assert j < |p| && forall q :: OccursAt(t, p, q) ==> i - j <= q;
    hide Aligned, OccursAt, IsLeftmostOccurrence;
    if j + 1 < |p| { AlignedNow(t, p, i + 1, j + 1); } else { OccursNow(t, p, i + 1); }
  }

  lemma MismatchAligns(t: seq<char>, p: seq<char>, i: nat)
    requires i < |t| && Aligned(t, p, i, 0) && p[0] != t[i]
    ensures Aligned(t, p, i + 1, 0)
  {
    forall q | OccursAt(t, p, q) ensures i < q {
      assert t[q..q + |p|][0] == t[q];
    }
    assert |p| > 0 && t[i + 1..i + 1] == p[..0];
    hide OccursAt, Aligned;
    AlignedNow(t, p, i + 1, 0);
  }

  lemma {:induction false} ScanIsLeftmost(t: seq<char>, p: seq<char>, tbl: seq<byte>, i: nat, j: nat)
    requires 0 < |p| == |tbl| && Falls(tbl) && HoldsBorders(p, tbl, |p| - 1)
    requires Aligned(t, p, i, j)
    ensures IsLeftmostOccurrence(t, p, ScanFrom(t, p, tbl, i, j))
    decreases |t| - i, j
  {
    assert j <= i <= |t| && j < |p|;
    hide Aligned, OccursAt, IsLeftmostOccurrence;
    if i == |t| {
      NoneLeft(t, p, j);
    } else if p[j] == t[i] {
      MatchAligns(t, p, i, j);
      if j < |p| - 1 { ScanIsLeftmost(t, p, tbl, i + 1, j + 1); }
    } else if j > 0 {
      AlignedFalls(t, p, i, j);
      ScanIsLeftmost(t, p, tbl, i, tbl[j - 1] as nat);
    } else {
      MismatchAligns(t, p, i);
      ScanIsLeftmost(t, p, tbl, i + 1, 0);
    }
  }

  /** The last entry of the table is never used, so its border need not fit. */
  lemma SearchIsLeftmost(t: seq<char>, p: seq<char>)
    requires p != []
    ensures BordersFit(p, |p| - 1) ==> IsLeftmostOccurrence(t, p, Search(t, p))
  {
    if BordersFit(p, |p| - 1) {
      if |p| > 1 { PrefixHolds(p, |p| - 1); }
      ScanIsLeftmost(t, p, FailureTable(p), 0, 0);
    }
  }

  lemma ShortPatternsFit(p: seq<char>)
    ensures 0 < |p| <= 257 ==> BordersFit(p, |p| - 1)
    ensures 0 < |p| <= 256 ==> BordersFit(p, |p|)
  {
  }

  // ------------------------------------------- exactly when the search is right

  /** How much of the pattern is matched behind the next element, by the fallback through the table. */
  ghost function Follow(p: seq<char>, tbl: seq<byte>, j: nat, c: char): (r: nat)
    requires j < |p| == |tbl| && Falls(tbl)
    ensures r <= j + 1
    decreases j
  {
    if p[j] == c then j + 1 else if j > 0 then Follow(p, tbl, tbl[j - 1] as nat, c) else 0
  }

  /** The last k elements of s are the first k of the pattern. */
  ghost predicate Ends(s: seq<char>, p: seq<char>, k: nat) {
    k <= |s| && k <= |p| && s[|s| - k..] == p[..k]
  }

  ghost predicate LongestEnd(s: seq<char>, p: seq<char>, k: nat) {
    Ends(s, p, k) && forall b: nat :: Ends(s, p, b) ==> b <= k
  }

  /**
   From every matched length and for every next element the cut table falls back
   to the longest part of the pattern that is still matched.
  */
  ghost predicate FallsBackRight(p: seq<char>)
    requires p != []
  {
    forall j: nat, c: char :: j < |p| ==> LongestEnd(p[..j] + [c], p, Follow(p, FailureTable(p), j, c))
  }

  lemma {:induction false} ScanFollows(t: seq<char>, p: seq<char>, tbl: seq<byte>, i: nat, j: nat)
    requires i < |t| && j < |p| == |tbl| && Falls(tbl)
    ensures var k := Follow(p, tbl, j, t[i]);
      ScanFrom(t, p, tbl, i, j) == if k == |p| then i - |p| + 1 else ScanFrom(t, p, tbl, i + 1, k)
    decreases j
  {
    if p[j] == t[i] || j == 0 {
    } else {
      ScanFollows(t, p, tbl, i, tbl[j - 1] as nat);
    }
  }

  lemma FollowedEnds(t: seq<char>, p: seq<char>, i: nat, j: nat, k: nat)
    requires i < |t| && Aligned(t, p, i, j) && LongestEnd(p[..j] + [t[i]], p, k)
    ensures k <= |p| && k <= i + 1 && t[i + 1 - k..i + 1] == p[..k] && forall q :: OccursAt(t, p, q) ==> i + 1 - k <= q
  {
    var s := p[..j] + [t[i]];
    assert t[i - j..i + 1] == s;
    assert t[i + 1 - k..i + 1] == s[|s| - k..];
    forall q | OccursAt(t, p, q) ensures i + 1 - k <= q {
      if q <= i {
        var b := i + 1 - q;
        assert s[|s| - b..] == t[q..i + 1] == t[q..q + |p|][..b] == p[..b];
        assert Ends(s, p, b);
      }
    }
  }

  /** The longest end of what is matched, with the next element, is aligned again or is an occurrence. */
  lemma AlignedFollows(t: seq<char>, p: seq<char>, i: nat, j: nat, k: nat)
    requires p != [] && i < |t| && Aligned(t, p, i, j) && LongestEnd(p[..j] + [t[i]], p, k)
    ensures k <= |p| && (k < |p| ==> Aligned(t, p, i + 1, k))
    ensures k == |p| ==> IsLeftmostOccurrence(t, p, i - |p| + 1)
  {
    hide Aligned, LongestEnd, OccursAt, IsLeftmostOccurrence;
    FollowedEnds(t, p, i, j, k);
    if k < |p| { AlignedNow(t, p, i + 1, k); } else { OccursNow(t, p, i + 1); }
  }

  /** One element of the text, all fallbacks included. */
  lemma OneFollowed(t: seq<char>, p: seq<char>, i: nat, j: nat)
    requires p != [] && FallsBackRight(p) && Aligned(t, p, i, j) && i < |t|
    ensures var tbl := FailureTable(p);
      var k := Follow(p, tbl, j, t[i]);
      if k == |p| then IsLeftmostOccurrence(t, p, ScanFrom(t, p, tbl, i, j))
      else k < |p| && Aligned(t, p, i + 1, k) && ScanFrom(t, p, tbl, i, j) == ScanFrom(t, p, tbl, i + 1, k)
  {
    assert j < |p|;
    hide Aligned, Follow, ScanFrom, LongestEnd, IsLeftmostOccurrence;
    var tbl := FailureTable(p);
    var k := Follow(p, tbl, j, t[i]);
    assert LongestEnd(p[..j] + [t[i]], p, k);
    ScanFollows(t, p, tbl, i, j);
    AlignedFollows(t, p, i, j, k);
  }

  lemma {:induction false} FollowingIsLeftmost(t: seq<char>, p: seq<char>, i: nat, j: nat)
    requires p != [] && FallsBackRight(p) && Aligned(t, p, i, j)
    ensures IsLeftmostOccurrence(t, p, ScanFrom(t, p, FailureTable(p), i, j))
    decreases |t| - i
  {
    if i == |t| {
      NoneLeft(t, p, j);
    } else {
      hide FallsBackRight, Follow, ScanFrom, IsLeftmostOccurrence, OccursAt;
      OneFollowed(t, p, i, j);
      var k := Follow(p, FailureTable(p), j, t[i]);
      if k < |p| { FollowingIsLeftmost(t, p, i + 1, k); }
    }
  }

  /** Matching elements are passed one by one. */
  lemma {:induction false} ScanPasses(t: seq<char>, p: seq<char>, tbl: seq<byte>, i: nat, j: nat, n: nat)
    requires |p| == |tbl| && Falls(tbl) && i + n <= |t| && j + n <= |p|
    requires t[i..i + n] == p[j..j + n] && j < |p|
    ensures ScanFrom(t, p, tbl, i, j) == if j + n == |p| then i - j else ScanFrom(t, p, tbl, i + n, j + n)
    decreases n
  {
    if n == 0 {
    } else {
      assert t[i] == t[i..i + n][0] == p[j..j + n][0] == p[j];
      if j + 1 < |p| {
        assert t[i + 1..i + n] == t[i..i + n][1..] == p[j..j + n][1..] == p[j + 1..j + n];
        ScanPasses(t, p, tbl, i + 1, j + 1, n - 1);
      }
    }
  }

  /** While the matched length can only grow by one, an occurrence is not reported before its length is reached. */
  lemma {:induction false} ScanIsSlow(t: seq<char>, p: seq<char>, tbl: seq<byte>, i: nat, j: nat)
    requires i <= |t| && j < |p| == |tbl| && Falls(tbl)
    ensures var r := ScanFrom(t, p, tbl, i, j); r == -1 || i - j <= r
    decreases |t| - i, j
  {
    if i == |t| {
    } else {
      var k := Follow(p, tbl, j, t[i]);
      ScanFollows(t, p, tbl, i, j);
      if k < |p| { ScanIsSlow(t, p, tbl, i + 1, k); }
    }
  }

  /** After the part matched and the element the search goes on with what the table says. */
  lemma FallbackIsUsed(p: seq<char>, j: nat, c: char, rest: seq<char>)
    requires p != [] && j < |p|
    ensures var tbl := FailureTable(p); var k := Follow(p, tbl, j, c); var t := p[..j] + [c] + rest;
      Search(t, p) == if k == |p| then j - |p| + 1 else ScanFrom(t, p, tbl, j + 1, k)
  {
    var tbl, t := FailureTable(p), p[..j] + [c] + rest;
    assert t[0..0 + j] == p[0..0 + j] && t[j] == c;
    ScanPasses(t, p, tbl, 0, 0, j);
    ScanFollows(t, p, tbl, j, j);
  }

  /**
   Completing what is taken for the first k elements of the pattern makes the
   search report the place k elements before.
  */
  lemma CompletionIsReported(s: seq<char>, p: seq<char>, k: nat)
    requires p != [] && k < |p|
    ensures ScanFrom(s + p[k..], p, FailureTable(p), |s|, k) == |s| - k
  {
    var t, n := s + p[k..], |p| - k;
    assert t[|s|..|s| + n] == p[k..];
    assert p[k..k + n] == p[k..];
    ScanPasses(t, p, FailureTable(p), |s|, k, n);
  }

  /** If what the table says is not matched, completing it makes the search report what is no occurrence. */
  lemma FalseReport(p: seq<char>, j: nat, c: char)
    requires p != [] && j < |p| && !Ends(p[..j] + [c], p, Follow(p, FailureTable(p), j, c))
    ensures var t := p[..j] + [c] + p[Follow(p, FailureTable(p), j, c)..];
      !IsLeftmostOccurrence(t, p, Search(t, p))
  {
    hide Ends, Follow, FailureTable, ScanFrom, Search, OccursAt;
    var s := p[..j] + [c];
    var k := Follow(p, FailureTable(p), j, c);
    var t := s + p[k..];
    FallbackIsUsed(p, j, c, p[k..]);
    if k < |p| { CompletionIsReported(s, p, k); }
    assert |s| == j + 1;
    if OccursAt(t, p, |s| - k) { OccurrenceEnds(s, p[k..], p, k); }
  }

  /** An occurrence that begins k elements before the end of s matches those. */
  lemma OccurrenceEnds(s: seq<char>, rest: seq<char>, p: seq<char>, k: nat)
    requires k <= |s| && k <= |p| && OccursAt(s + rest, p, |s| - k)
    ensures Ends(s, p, k)
  {
    var t := s + rest;
    assert t[|s| - k..|s| - k + |p|][..k] == t[|s| - k..|s|] == s[|s| - k..];
  }

  /** If more is matched than the table says, completing it makes the search pass over an occurrence. */
  lemma PassedOver(p: seq<char>, j: nat, c: char, k: nat)
    requires p != [] && j < |p| && Ends(p[..j] + [c], p, k) && Follow(p, FailureTable(p), j, c) < k
    ensures var t := p[..j] + [c] + p[k..]; !IsLeftmostOccurrence(t, p, Search(t, p))
  {
    hide Ends, Follow, FailureTable, ScanFrom, Search, OccursAt;
    var tbl, s := FailureTable(p), p[..j] + [c];
    EndCompletes(s, p, k);
    var t := s + p[k..];
    FallbackIsUsed(p, j, c, p[k..]);
    ScanIsSlow(t, p, tbl, j + 1, Follow(p, tbl, j, c));
  }

  lemma EndCompletes(s: seq<char>, p: seq<char>, k: nat)
    requires Ends(s, p, k)
    ensures k <= |s| && k <= |p| && OccursAt(s + p[k..], p, |s| - k)
  {
    var t := s + p[k..];
    assert t[|s| - k..|s| - k + |p|] == s[|s| - k..] + p[k..] == p[..k] + p[k..] == p;
  }

  /** A wrong fallback shows in a text: the part matched, the element, and what would complete an occurrence. */
  lemma WrongFallbackShows(p: seq<char>, j: nat, c: char) returns (t: seq<char>)
    requires p != [] && j < |p| && !LongestEnd(p[..j] + [c], p, Follow(p, FailureTable(p), j, c))
    ensures !IsLeftmostOccurrence(t, p, Search(t, p))
  {
    var s, k := p[..j] + [c], Follow(p, FailureTable(p), j, c);
    if Ends(s, p, k) {
      var right := LongestEndOf(s, p, |p|);
      PassedOver(p, j, c, right);
      t := s + p[right..];
    } else {
      FalseReport(p, j, c);
      t := s + p[k..];
    }
  }

  ghost function LongestEndOf(s: seq<char>, p: seq<char>, k: nat): (r: nat)
    requires k <= |p|
    ensures Ends(s, p, r) && r <= k && forall b: nat :: b <= k && Ends(s, p, b) ==> b <= r
  {
    if k == 0 || Ends(s, p, k) then k else LongestEndOf(s, p, k - 1)
  }

  /** A pattern is found right in every text exactly when the cut table always falls back right. */
  lemma RightExactlyWhen(p: seq<char>)
    requires p != []
    ensures (forall t :: IsLeftmostOccurrence(t, p, Search(t, p))) <==> FallsBackRight(p)
  {
    if FallsBackRight(p) {
      forall t ensures IsLeftmostOccurrence(t, p, Search(t, p)) { FollowingIsLeftmost(t, p, 0, 0); }
    } else {
      var j: nat, c: char :| j < |p| && !LongestEnd(p[..j] + [c], p, Follow(p, FailureTable(p), j, c));
      var t := WrongFallbackShows(p, j, c);
    }
  }

  // ------------------------------------- 258 characters: one byte too short

  function Repeat(c: char, n: nat): (r: seq<char>)
    ensures |r| == n && forall i :: 0 <= i < n ==> r[i] == c
  {
    seq(n, _ => c)
  }

  lemma {:induction false} RunOfOneCharacter(p: seq<char>, tbl: seq<byte>, c: char)
    requires 0 < |tbl| <= 256 && 258 <= |p| && p[..257] == Repeat(c, 257)
    requires forall k :: 0 <= k < |tbl| ==> tbl[k] as int == k
    ensures var r := BuildFrom(p, tbl, |tbl| - 1);
      r[256] == 0 && r[0] == 0
    decreases 256 - |tbl|
  {
    var i := |tbl|;
    assert p[..257][i] == c && p[..257][i - 1] == c;
    if i < 256 {
      RunOfOneCharacter(p, tbl + [Cut(i)], c);
    } else {
      var next := tbl + [Cut(256)];
      assert next[256] == 0 && next[0] == 0;
      assert BuildFrom(p, tbl, 255) == BuildFrom(p, next, 256);
    }
  }

  /** Elements that are not the first of the pattern are passed over. */
  lemma {:induction false} ScanFindsNothing(t: seq<char>, p: seq<char>, tbl: seq<byte>, i: nat)
    requires i <= |t| && 0 < |p| == |tbl| && Falls(tbl)
    requires forall k :: i <= k < |t| ==> t[k] != p[0]
    ensures ScanFrom(t, p, tbl, i, 0) == -1
    decreases |t| - i
  {
    if i == |t| {
    } else {
      ScanFindsNothing(t, p, tbl, i + 1);
    }
  }

  /**
   From 258 characters on there is a pattern of every length that has an
   occurrence which the cut entry makes the search miss.
  */
  lemma LongPatternIsMissed(m: nat)
    requires 258 <= m
    ensures var p := Repeat('a', 257) + Repeat('b', m - 257);
      var t := Repeat('a', 258) + Repeat('b', m - 257);
      OccursAt(t, p, 1) && Search(t, p) == -1
  {
    var p := Repeat('a', 257) + Repeat('b', m - 257);
    var t := Repeat('a', 258) + Repeat('b', m - 257);
    assert t[1..1 + m] == p;
    assert p[..257] == Repeat('a', 257);
    RunOfOneCharacter(p, [0], 'a');
    var tbl := FailureTable(p);
    assert Falls(tbl) && tbl[256] == 0 && tbl[0] == 0;
    assert t[0..0 + 257] == p[0..0 + 257];
    ScanPasses(t, p, tbl, 0, 0, 257);
    assert p[257] != t[257] && p[0] == t[257] && p[1] != t[258] && p[0] != t[258];
    assert ScanFrom(t, p, tbl, 257, 257) == ScanFrom(t, p, tbl, 257, 0);
    assert ScanFrom(t, p, tbl, 257, 0) == ScanFrom(t, p, tbl, 258, 1);
    assert ScanFrom(t, p, tbl, 258, 1) == ScanFrom(t, p, tbl, 258, 0);
    ScanFindsNothing(t, p, tbl, 258);
  }

  /** All patterns of a length are found right in all texts exactly up to 257 characters. */
  lemma LengthDecides(m: nat)
    requires 0 < m
    ensures (forall p, t | |p| == m :: IsLeftmostOccurrence(t, p, Search(t, p))) <==> m <= 257
  {
    if m <= 257 {
      forall p: seq<char>, t: seq<char> | |p| == m ensures IsLeftmostOccurrence(t, p, Search(t, p)) {
        ShortPatternsFit(p);
        SearchIsLeftmost(t, p);
      }
    } else {
      LongPatternIsMissed(m);
      var p := Repeat('a', 257) + Repeat('b', m - 257);
      var t := Repeat('a', 258) + Repeat('b', m - 257);
      assert |p| == m && !IsLeftmostOccurrence(t, p, Search(t, p));
    }
  }

  // -------------------------------------------- what the no-caps key equates

  predicate IsLower(c: char) { 'a' <= c <= 'z' }

  function AsciiUpper(c: char): char {
    if IsLower(c) then ((c as int) - 32) as char else c
  }

  /** `upper` leaves 'a' and 'z' alone, so the no-caps search is caseless for every letter but those two. */
  lemma UpperEquates(c: char, d: char)
    ensures Upper(c) == Upper(d) <==>
      AsciiUpper(c) == AsciiUpper(d) && (c == d || AsciiUpper(c) !in {'A', 'Z'})
  {
    if IsLower(c) && !IsLower(d) {
      assert Upper(c) == Upper(d) <==> c != 'a' && c != 'z' && d as int == c as int - 32;
    } else if !IsLower(c) && IsLower(d) {
      assert Upper(c) == Upper(d) <==> d != 'a' && d != 'z' && c as int == d as int - 32;
    }
  }
}
