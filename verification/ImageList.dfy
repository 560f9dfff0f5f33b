/**
 The two pieces of code that change the waiting list inside the lock
 (imgeditor/imageview.cpp): putting a view on it and one pass of the worker.
 The list is kept as a sequence of views; how its links change is in ImageLoader.
*/
module ImageList {

  import opened Common

  class ImageView {
    var curLoadingIdx: int
    /** Whether each item still shows the default image. */
    var items: seq<bool>

    constructor (items: seq<bool>)
      ensures this.items == items && curLoadingIdx == -1
    {
      this.items := items;
      curLoadingIdx := -1;
    }
  }

  /** What a view holds. */
  datatype Place = Place(idx: int, items: seq<bool>)

  ghost function PlaceOf(v: ImageView): Place
    reads v
  {
    Place(v.curLoadingIdx, v.items)
  }

  /** The first item from i on that needs an image, or their number. */
  function NextDefault(items: seq<bool>, i: nat): (r: nat)
    requires i <= |items|
    ensures i <= r <= |items|
    ensures forall k :: i <= k < r ==> !items[k]
    ensures r < |items| ==> items[r]
    decreases |items| - i
  {
    if i == |items| || items[i] then i else NextDefault(items, i + 1)
  }

  /** One look at a view: the next item that needs an image gets one. */
  function LookAt(p: Place): Place
    requires 0 <= p.idx < |p.items|
  {
    var k := NextDefault(p.items, p.idx);
    if k == |p.items| then Place(k, p.items) else Place(k + 1, p.items[k := false])
  }

  /**
   One look gives an image to exactly one item, the first one at the position or
   behind it that needs one, and goes on behind it; without such an item it goes
   to the end and changes nothing.
  */
  lemma OneLook(p: Place, k: nat)
    requires 0 <= p.idx < |p.items|
    requires p.idx <= k <= |p.items| && forall j :: p.idx <= j < k ==> !p.items[j]
    requires k < |p.items| ==> p.items[k]
    ensures var r := LookAt(p);
      && r.idx == (if k < |p.items| then k + 1 else k) && |r.items| == |p.items|
      && forall j :: 0 <= j < |p.items| ==> r.items[j] == (p.items[j] && j != k)
  {
  }

  /** The item at j has got an image. */
  predicate GotImage(before: Place, after: Place, j: nat) {
    j < |before.items| == |after.items| && before.items[j] && !after.items[j]
  }

  /** Between two places of a view at most one item got an image, and none lost its own. */
  ghost predicate AtMostOneImage(before: Place, after: Place) {
    && |before.items| == |after.items|
    && (forall j :: 0 <= j < |before.items| && after.items[j] ==> before.items[j])
    && (forall j, k :: GotImage(before, after, j) && GotImage(before, after, k) ==> j == k)
  }

  predicate Finished(p: Place) { |p.items| <= p.idx }

  /** Everything in front of the position has its image. */
  predicate LoadedBefore(p: Place) {
    p.idx <= |p.items| && forall k :: 0 <= k < p.idx ==> !p.items[k]
  }

  /** A view that has been looked at without its items changing has all its images when it leaves the list. */
  lemma LookLoads(p: Place)
    requires 0 <= p.idx < |p.items| && LoadedBefore(p)
    ensures LoadedBefore(LookAt(p)) && p.idx < LookAt(p).idx
    ensures Finished(LookAt(p)) ==> forall k :: 0 <= k < |p.items| ==> !LookAt(p).items[k]
  {
  }

  /** Those among the first k views that were not finished. */
  ghost function Kept(vs: seq<ImageView>, ps: seq<Place>, k: nat): (r: seq<ImageView>)
    requires k <= |vs| == |ps|
  {
    if k == 0 then []
    else if Finished(ps[k - 1]) then Kept(vs, ps, k - 1)
    else Kept(vs, ps, k - 1) + [vs[k - 1]]
  }

  lemma NoneKept(vs: seq<ImageView>, ps: seq<Place>)
    requires |vs| == |ps|
    ensures Kept(vs, ps, 0) == []
  {
  }

  /** What a pass makes of a view that held p. */
  ghost predicate Passed(v: ImageView, p: Place)
    reads v
  {
    if Finished(p) then PlaceOf(v) == Place(-1, p.items)
    else 0 <= p.idx && PlaceOf(v) == LookAt(p)
  }

  lemma PassedOneImage(v: ImageView, p: Place)
    requires Passed(v, p)
    ensures AtMostOneImage(p, PlaceOf(v))
  {
  }

  lemma {:induction false} KeptAmong(vs: seq<ImageView>, ps: seq<Place>, k: nat, j: nat) returns (i: nat)
    requires k <= |vs| == |ps| && j < |Kept(vs, ps, k)|
    ensures i < k && Kept(vs, ps, k)[j] == vs[i] && !Finished(ps[i])
  {
    if Finished(ps[k - 1]) || j < |Kept(vs, ps, k - 1)| {
      i := KeptAmong(vs, ps, k - 1, j);
    } else {
      i := k - 1;
    }
  }

  lemma {:induction false} KeptDistinct(vs: seq<ImageView>, ps: seq<Place>, k: nat)
    requires k <= |vs| == |ps| && Distinct(vs)
    ensures Distinct(Kept(vs, ps, k))
  {
    if k == 0 {
    } else {
      KeptDistinct(vs, ps, k - 1);
      var r := Kept(vs, ps, k - 1);
      forall j | 0 <= j < |r| ensures r[j] != vs[k - 1] {
        var i := KeptAmong(vs, ps, k - 1, j);
      }
    }
  }

  /** A view stays on the list exactly when its position was in front of its end; nothing else comes on it. */
  lemma {:induction false} KeptExactly(vs: seq<ImageView>, ps: seq<Place>, k: nat)
    requires k <= |vs| == |ps| && Distinct(vs)
    ensures forall i :: 0 <= i < |vs| ==> (vs[i] in Kept(vs, ps, k) <==> i < k && ps[i].idx < |ps[i].items|)
    ensures forall v :: v in Kept(vs, ps, k) ==> v in vs
  {
    if k == 0 {
    } else {
      KeptExactly(vs, ps, k - 1);
    }
  }

  /** The views that stay are in the order in which they were. */
  lemma {:induction false} KeptInOrder(vs: seq<ImageView>, ps: seq<Place>, k: nat, a: nat, b: nat)
      returns (i: nat, j: nat)
    requires k <= |vs| == |ps| && a < b < |Kept(vs, ps, k)|
    ensures i < j < k && Kept(vs, ps, k)[a] == vs[i] && Kept(vs, ps, k)[b] == vs[j]
  {
    if Finished(ps[k - 1]) || b < |Kept(vs, ps, k - 1)| {
      i, j := KeptInOrder(vs, ps, k - 1, a, b);
    } else {
      i := KeptAmong(vs, ps, k - 1, a);
      j := k - 1;
    }
  }

  lemma KeptPositioned(vs: seq<ImageView>, ps: seq<Place>)
    requires |vs| == |ps| && forall i :: 0 <= i < |vs| ==> Passed(vs[i], ps[i])
    ensures var r := Kept(vs, ps, |vs|); forall j :: 0 <= j < |r| ==> 0 <= r[j].curLoadingIdx
  {
    var r := Kept(vs, ps, |vs|);
    forall j | 0 <= j < |r| ensures 0 <= r[j].curLoadingIdx {
      var i := KeptAmong(vs, ps, |vs|, j);
    }
  }

  class Waiting {
    var views: seq<ImageView>
    var sem: nat

    /** No view twice, and a position for each. */
    ghost predicate Valid()
      reads this, views
    {
      Distinct(views) && forall i :: 0 <= i < |views| ==> 0 <= views[i].curLoadingIdx
    }

    constructor ()
      ensures Valid() && views == [] && sem == 0
    {
      views := [];
      sem := 0;
    }

    method SyncLoadImages(view: ImageView)
      requires Valid()
      modifies this, view`curLoadingIdx
      ensures Valid() && view.curLoadingIdx == 0
      ensures if view in old(views) then views == old(views) && sem == old(sem)
              else views == [view] + old(views) && sem == old(sem) + 1
    {
      view.curLoadingIdx := 0;
      var k := 0;
      while k < |views| && views[k] != view
        invariant k <= |views| && view !in views[..k]
      {
        k := k + 1;
      }
      if k == |views| {
        assert view !in views;
        views := [view] + views;
        sem := sem + 1;
      }
    }

    /** Looks at the items from the view's position on until one image is loaded. */
    method LoadOne(view: ImageView)
      requires 0 <= view.curLoadingIdx < |view.items|
      modifies view
      ensures PlaceOf(view) == LookAt(old(PlaceOf(view)))
      ensures AtMostOneImage(old(PlaceOf(view)), PlaceOf(view))
    {
      while view.curLoadingIdx < |view.items|
        invariant old(view.curLoadingIdx) <= view.curLoadingIdx <= |view.items|
        invariant view.items == old(view.items)
        invariant NextDefault(view.items, view.curLoadingIdx) == NextDefault(view.items, old(view.curLoadingIdx))
      {
        var item := view.curLoadingIdx;
        view.curLoadingIdx := view.curLoadingIdx + 1;
        if !view.items[item] { continue; }
        view.items := view.items[item := false];
        break;
      }
    }

    method Remove(at: nat, view: ImageView)
      requires at < |views| && view == views[at]
      modifies this`views, view`curLoadingIdx
      ensures views == old(views)[..at] + old(views)[at + 1..]
      ensures views[..at] == old(views)[..at] && views[at..] == old(views)[at + 1..]
      ensures view.curLoadingIdx == -1
    {
      views := views[..at] + views[at + 1..];
      view.curLoadingIdx := -1;
    }

    /** What a pass does to the k-th of the views that were listed. */
    method Turn(at: nat, ghost all: seq<ImageView>, ghost ps: seq<Place>, ghost k: nat) returns (next: nat)
      requires k < |all| == |ps| && at < |views| && Distinct(all) && PlaceOf(all[k]) == ps[k] && 0 <= ps[k].idx
      requires views[at..] == all[k..] && views[..at] == Kept(all, ps, k)
      modifies this`views, all[k]
      ensures next <= |views| && Passed(all[k], ps[k])
      ensures views[next..] == all[k + 1..] && views[..next] == Kept(all, ps, k + 1)
    {
      var view := views[at];
      assert view == views[at..][0] == all[k];
      assert views[at..][1..] == views[at + 1..] && all[k..][1..] == all[k + 1..];
      if view.curLoadingIdx >= |view.items| {
        Remove(at, view);
        next := at;
      } else {
        LoadOne(view);
        assert views[..at + 1] == views[..at] + [view];
        next := at + 1;
      }
    }

    /** One pass: finished views leave the list, every other one has an item looked at. */
    method Pass(ghost ps: seq<Place>)
      requires Valid() && |ps| == |views| && forall i :: 0 <= i < |views| ==> ps[i] == PlaceOf(views[i])
      modifies this`views, views
      ensures Valid() && views == Kept(old(views), ps, |ps|)
      ensures forall i :: 0 <= i < |ps| ==> Passed(old(views)[i], ps[i])
      ensures forall i :: 0 <= i < |ps| ==> AtMostOneImage(ps[i], PlaceOf(old(views)[i]))
    {
      hide LookAt, NextDefault, Kept;
      ghost var all, k := views, 0;
      var at: nat := 0;
      NoneKept(all, ps);
      while at < |views|
        invariant at <= |views| && k <= |all| == |ps|
        invariant views[at..] == all[k..] && views[..at] == Kept(all, ps, k)
        invariant forall i :: 0 <= i < k ==> Passed(all[i], ps[i])
        invariant forall i :: k <= i < |all| ==> PlaceOf(all[i]) == ps[i]
        decreases |all| - k
      {
        at := Turn(at, all, ps, k);
        k := k + 1;
      }
      assert views[..at] == views;
      KeptDistinct(all, ps, |ps|);
      KeptPositioned(all, ps);
      forall i | 0 <= i < |ps| ensures AtMostOneImage(ps[i], PlaceOf(all[i])) { PassedOneImage(all[i], ps[i]); }
    }
  }
}
