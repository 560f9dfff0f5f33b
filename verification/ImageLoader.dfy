/**
 The background loading of images (imgeditor/imageview.cpp): callers put views on
 a waiting list and post a semaphore; a worker walks the list, loads one image of
 each view per pass and takes finished views off.  Every step below is one
 access that other threads can see, so the lemmas hold for every interleaving.
*/
module ImageLoader {

  import opened Common
  import opened ImageList
  import opened Wrappers

  type View = nat

  /** Where the worker is: testing the list, waiting, taking the lock, at a view of the list, or asleep. */
  datatype Worker = Testing | Waiting | Locking | Visiting(view: Option<View>, prev: Option<View>) | Sleeping

  /** A thread inside SyncLoadImages: holding the lock, having linked its view, or about to unlock. */
  datatype Caller = Outside | Locked(view: View) | Linked(view: View) | Leaving(view: View)

  datatype Holder = Nobody | TheWorker | ACaller(id: nat)

  datatype State = State(
    first: Option<View>,              // sync_loading_first
    next: map<View, Option<View>>,    // sync_loading_next of each view
    idx: map<View, int>,              // cur_loading_idx of each view
    items: map<View, seq<bool>>,      // of each view, which items still show the default image
    sem: nat,
    lock: Holder,
    worker: Worker,
    callers: map<nat, Caller>)

  // ------------------------------------------------------------- the list

  /** The links from p on run through exactly the views of xs, in order. */
  ghost predicate Chain(p: Option<View>, next: map<View, Option<View>>, xs: seq<View>)
    decreases |xs|
  {
    if xs == [] then p == None
    else p == Some(xs[0]) && xs[0] in next && Chain(next[xs[0]], next, xs[1..])
  }

  /** The search of SyncLoadImages finds v. */
  ghost predicate OnList(s: State, v: View) {
    exists xs :: Chain(s.first, s.next, xs) && v in xs
  }

  // ------------------------------------------------------------- the steps

  ghost predicate CallerLocks(s: State, s': State, c: nat, v: View) {
    && c in s.callers && s.callers[c] == Outside && s.lock == Nobody && v in s.next
    && s' == s.(lock := ACaller(c), callers := s.callers[c := Locked(v)])
  }

  ghost predicate CallerLinks(s: State, s': State, c: nat) {
    && c in s.callers && s.callers[c].Locked?
    && var v := s.callers[c].view;
       if OnList(s, v) then s' == s.(idx := s.idx[v := 0], callers := s.callers[c := Leaving(v)])
       else s' == s.(idx := s.idx[v := 0], next := s.next[v := s.first], first := Some(v),
                     callers := s.callers[c := Linked(v)])
  }

  ghost predicate CallerPosts(s: State, s': State, c: nat) {
    && c in s.callers && s.callers[c].Linked?
    && s' == s.(sem := s.sem + 1, callers := s.callers[c := Leaving(s.callers[c].view)])
  }

  ghost predicate CallerUnlocks(s: State, s': State, c: nat) {
    && c in s.callers && s.callers[c].Leaving?
    && s' == s.(lock := Nobody, callers := s.callers[c := Outside])
  }

  /** A change of a view's items under its guard: while it is listed the lock is held and loading starts over. */
  ghost predicate ItemsChange(s: State, s': State, v: View, items: seq<bool>) {
    && v in s.idx && v in s.items
    && (0 <= s.idx[v] ==> s.lock == Nobody)
    && s' == s.(items := s.items[v := items], idx := if 0 <= s.idx[v] then s.idx[v := 0] else s.idx)
  }

  /** The list is tested without the lock. */
  ghost predicate WorkerTests(s: State, s': State) {
    s.worker == Testing && s' == s.(worker := if s.first == None then Waiting else Locking)
  }

  ghost predicate WorkerWakes(s: State, s': State) {
    s.worker == Waiting && 0 < s.sem && s' == s.(sem := s.sem - 1, worker := Locking)
  }

  ghost predicate WorkerLocks(s: State, s': State) {
    s.worker == Locking && s.lock == Nobody && s' == s.(lock := TheWorker, worker := Visiting(s.first, None))
  }

  /**
   A view with nothing left is unlinked and marked; any other one has a look,
   which loads one image and skips items that need none.
  */
  ghost predicate WorkerVisits(s: State, s': State) {
    && s.worker.Visiting? && s.worker.view.Some?
    && var v, prev := s.worker.view.value, s.worker.prev;
    && v in s.idx && v in s.items && v in s.next && (prev.Some? ==> prev.value in s.next)
    && if |s.items[v]| <= s.idx[v] then
         s' == s.(first := if prev == None then s.next[v] else s.first,
                  next := (if prev == None then s.next else s.next[prev.value := s.next[v]])[v := None],
                  idx := s.idx[v := -1],
                  worker := Visiting(s.next[v], prev))
       else
         && 0 <= s.idx[v]
         && var p := LookAt(Place(s.idx[v], s.items[v]));
            s' == s.(idx := s.idx[v := p.idx], items := s.items[v := p.items], worker := Visiting(s.next[v], Some(v)))
  }

  ghost predicate WorkerUnlocks(s: State, s': State) {
    s.worker.Visiting? && s.worker.view == None && s' == s.(lock := Nobody, worker := Sleeping)
  }

  ghost predicate WorkerRests(s: State, s': State) {
    s.worker == Sleeping && s' == s.(worker := Testing)
  }

  ghost predicate WorkerStep(s: State, s': State) {
    || WorkerTests(s, s') || WorkerWakes(s, s') || WorkerLocks(s, s')
    || WorkerVisits(s, s') || WorkerUnlocks(s, s') || WorkerRests(s, s')
  }

  ghost predicate CallerStep(s: State, s': State) {
    || (exists c, v :: CallerLocks(s, s', c, v))
    || (exists c :: CallerLinks(s, s', c))
    || (exists c :: CallerPosts(s, s', c))
    || (exists c :: CallerUnlocks(s, s', c))
    || (exists v, items :: ItemsChange(s, s', v, items))
  }

  ghost predicate Step(s: State, s': State) {
    WorkerStep(s, s') || CallerStep(s, s')
  }

  ghost predicate Init(s: State) {
    && s.first == None && s.sem == 0 && s.lock == Nobody && s.worker == Testing
    && s.idx.Keys == s.next.Keys == s.items.Keys
    && (forall v :: v in s.idx ==> s.idx[v] == -1)
    && (forall c :: c in s.callers ==> s.callers[c] == Outside)
  }

  // ------------------------------------------------------------ invariants

  /** Threads inside a critical section hold the lock, and only they. */
  ghost predicate LockInv(s: State) {
    && (forall c :: c in s.callers && s.callers[c] != Outside ==> s.lock == ACaller(c))
    && (s.lock.ACaller? ==> s.lock.id in s.callers && s.callers[s.lock.id] != Outside)
    && (s.worker.Visiting? <==> s.lock == TheWorker)
  }

  /** The list has no view twice, and the views on it are those with a position. */
  ghost predicate ListInv(s: State, xs: seq<View>) {
    && s.idx.Keys == s.next.Keys == s.items.Keys
    && Chain(s.first, s.next, xs) && Distinct(xs)
    && (forall v :: v in s.idx ==> -1 <= s.idx[v])
    && (forall v :: v in s.idx ==> (v in xs <==> 0 <= s.idx[v]))
    && (forall c :: c in s.callers && s.callers[c] != Outside ==> s.callers[c].view in s.next)
  }

  /** The worker's place in the list: prev is the view in front of the one it looks at. */
  ghost predicate CursorInv(s: State, xs: seq<View>) {
    s.worker.Visiting? ==>
      exists i :: 0 <= i <= |xs| && CursorAt(s, xs, i)
  }

  ghost predicate CursorAt(s: State, xs: seq<View>, i: int) {
    && s.worker.Visiting? && 0 <= i <= |xs|
    && s.worker.view == (if i < |xs| then Some(xs[i]) else None)
    && s.worker.prev == (if i == 0 then None else Some(xs[i - 1]))
  }

  ghost predicate PostPending(s: State) {
    exists c :: c in s.callers && s.callers[c].Linked?
  }

  /** A waiting worker will be woken when there is something on the list. */
  ghost predicate WakeInv(s: State) {
    s.worker == Waiting && s.first != None ==> 0 < s.sem || PostPending(s)
  }

  ghost predicate InvWith(s: State, xs: seq<View>) {
    LockInv(s) && ListInv(s, xs) && CursorInv(s, xs) && WakeInv(s)
  }

  ghost predicate Inv(s: State) {
    exists xs :: InvWith(s, xs)
  }

  // ------------------------------------------------------ facts about chains

  lemma {:induction false} ChainUnique(p: Option<View>, next: map<View, Option<View>>, xs: seq<View>, ys: seq<View>)
    requires Chain(p, next, xs) && Chain(p, next, ys)
    ensures xs == ys
    decreases |xs|
  {
    if xs == [] || ys == [] {
    } else {
      ChainUnique(next[xs[0]], next, xs[1..], ys[1..]);
      assert xs == [xs[0]] + xs[1..] && ys == [ys[0]] + ys[1..];
    }
  }

  lemma {:induction false} ChainLinks(p: Option<View>, next: map<View, Option<View>>, xs: seq<View>, i: nat)
    requires Chain(p, next, xs) && i < |xs|
    ensures xs[i] in next && next[xs[i]] == if i + 1 < |xs| then Some(xs[i + 1]) else None
    decreases |xs|
  {
    if i == 0 {
    } else {
      ChainLinks(next[xs[0]], next, xs[1..], i - 1);
    }
  }

  /** Links of views that are not on the list do not matter. */
  lemma {:induction false} ChainElsewhere(p: Option<View>, next: map<View, Option<View>>, xs: seq<View>, v: View,
      q: Option<View>)
    requires Chain(p, next, xs) && v !in xs
    ensures Chain(p, next[v := q], xs)
    decreases |xs|
  {
    if xs == [] {
    } else {
      ChainElsewhere(next[xs[0]], next, xs[1..], v, q);
    }
  }

  function Without(xs: seq<View>, i: nat): (r: seq<View>)
    requires i < |xs|
    ensures |r| == |xs| - 1
  {
    xs[..i] + xs[i + 1..]
  }

  /** Relinking the view in front takes the i-th view off the list. */
  lemma {:induction false} ChainUnlinks(p: Option<View>, next: map<View, Option<View>>, xs: seq<View>, i: nat)
    requires Chain(p, next, xs) && Distinct(xs) && 0 < i < |xs|
    ensures xs[i] in next && Chain(p, next[xs[i - 1] := next[xs[i]]], Without(xs, i))
    decreases i
  {
    ChainLinks(p, next, xs, i);
    var next' := next[xs[i - 1] := next[xs[i]]];
    var ys := Without(xs, i);
    if i == 1 {
      assert ys[1..] == xs[2..] && xs[1..][1..] == xs[2..];
      assert Chain(next[xs[1]], next, xs[2..]);
      assert xs[0] !in xs[2..];
      ChainElsewhere(next[xs[1]], next, xs[2..], xs[0], next[xs[1]]);
    } else {
      assert xs[1..][i - 1] == xs[i] && xs[1..][i - 2] == xs[i - 1];
      ChainUnlinks(next[xs[0]], next, xs[1..], i - 1);
      assert ys[1..] == Without(xs[1..], i - 1);
      assert next'[xs[0]] == next[xs[0]];
    }
  }

  // ------------------------------------------------ every step keeps them

  lemma InitInv(s: State)
    requires Init(s)
    ensures Inv(s)
  {
    assert InvWith(s, []);
  }

  lemma CallerLocksInv(s: State, s': State, c: nat, v: View, xs: seq<View>)
    requires InvWith(s, xs) && CallerLocks(s, s', c, v)
    ensures InvWith(s', xs)
  {
  }

  lemma OnListIs(s: State, xs: seq<View>, v: View)
    requires Chain(s.first, s.next, xs)
    ensures OnList(s, v) <==> v in xs
  {
    if OnList(s, v) {
      var ys :| Chain(s.first, s.next, ys) && v in ys;
      ChainUnique(s.first, s.next, xs, ys);
    }
  }

  lemma CallerLinksInv(s: State, s': State, c: nat, xs: seq<View>) returns (ys: seq<View>)
    requires InvWith(s, xs) && CallerLinks(s, s', c)
    ensures InvWith(s', ys)
  {
    var v := s.callers[c].view;
    OnListIs(s, xs, v);
    if v in xs {
      ys := xs;
    } else {
      ys := [v] + xs;
      ChainElsewhere(s.first, s.next, xs, v, s.first);
      assert ys[1..] == xs;
      assert s'.callers[c].Linked?;
    }
  }

  lemma CallerPostsInv(s: State, s': State, c: nat, xs: seq<View>)
    requires InvWith(s, xs) && CallerPosts(s, s', c)
    ensures InvWith(s', xs)
  {
  }

  lemma CallerUnlocksInv(s: State, s': State, c: nat, xs: seq<View>)
    requires InvWith(s, xs) && CallerUnlocks(s, s', c)
    ensures InvWith(s', xs)
  {
  }

  lemma ItemsChangeInv(s: State, s': State, v: View, items: seq<bool>, xs: seq<View>)
    requires InvWith(s, xs) && ItemsChange(s, s', v, items)
    ensures InvWith(s', xs)
  {
    if s.worker.Visiting? {
      var i :| 0 <= i <= |xs| && CursorAt(s, xs, i);
      assert CursorAt(s', xs, i);
    }
  }

  lemma WithoutFacts(xs: seq<View>, i: nat)
    requires Distinct(xs) && i < |xs|
    ensures var ys := Without(xs, i);
      && Distinct(ys) && (forall u :: u in ys <==> u in xs && u != xs[i])
      && forall j :: 0 <= j < |ys| ==> ys[j] == if j < i then xs[j] else xs[j + 1]
  {
    var ys := Without(xs, i);
    forall u | u in xs && u != xs[i] ensures u in ys {
      var j :| 0 <= j < |xs| && xs[j] == u;
      assert ys[if j < i then j else j - 1] == u;
    }
  }

  lemma VisitUnlinks(s: State, s': State, xs: seq<View>, i: nat)
    requires InvWith(s, xs) && WorkerVisits(s, s') && CursorAt(s, xs, i)
    requires |s.items[s.worker.view.value]| <= s.idx[s.worker.view.value]
    ensures InvWith(s', Without(xs, i))
  {
    var v, prev, ys := s.worker.view.value, s.worker.prev, Without(xs, i);
    WithoutFacts(xs, i);
    ChainLinks(s.first, s.next, xs, i);
    assert Chain(s'.first, s'.next, ys) by {
      if i == 0 {
        assert ys == xs[1..];
        ChainElsewhere(s.next[v], s.next, ys, v, None);
      } else {
        ChainUnlinks(s.first, s.next, xs, i);
        ChainElsewhere(s.first, s.next[prev.value := s.next[v]], ys, v, None);
      }
    }
    assert CursorAt(s', ys, i);
  }

  lemma VisitLoads(s: State, s': State, xs: seq<View>, i: nat)
    requires InvWith(s, xs) && WorkerVisits(s, s') && CursorAt(s, xs, i)
    requires s.idx[s.worker.view.value] < |s.items[s.worker.view.value]|
    ensures InvWith(s', xs)
  {
    ChainLinks(s.first, s.next, xs, i);
    assert CursorAt(s', xs, i + 1);
  }

  lemma WorkerVisitsInv(s: State, s': State, xs: seq<View>)
    requires InvWith(s, xs) && WorkerVisits(s, s')
    ensures Inv(s')
  {
    var i :| 0 <= i <= |xs| && CursorAt(s, xs, i);
    if |s.items[s.worker.view.value]| <= s.idx[s.worker.view.value] {
      VisitUnlinks(s, s', xs, i);
    } else {
      VisitLoads(s, s', xs, i);
    }
  }

  lemma WorkerMovesInv(s: State, s': State, xs: seq<View>)
    requires InvWith(s, xs) && WorkerStep(s, s') && !WorkerVisits(s, s')
    ensures InvWith(s', xs)
  {
    if WorkerLocks(s, s') {
      ChainHead(s.first, s.next, xs);
      assert CursorAt(s', xs, 0);
    }
  }

  lemma ChainHead(p: Option<View>, next: map<View, Option<View>>, xs: seq<View>)
    requires Chain(p, next, xs)
    ensures p == if xs == [] then None else Some(xs[0])
  {
  }

  lemma StepInv(s: State, s': State)
    requires Inv(s) && Step(s, s')
    ensures Inv(s')
  {
    var xs :| InvWith(s, xs);
    if WorkerVisits(s, s') {
      WorkerVisitsInv(s, s', xs);
    } else if WorkerStep(s, s') {
      WorkerMovesInv(s, s', xs);
    } else if c, v :| CallerLocks(s, s', c, v) {
      CallerLocksInv(s, s', c, v, xs);
    } else if c :| CallerLinks(s, s', c) {
      var ys := CallerLinksInv(s, s', c, xs);
    } else if c :| CallerPosts(s, s', c) {
      CallerPostsInv(s, s', c, xs);
    } else if c :| CallerUnlocks(s, s', c) {
      CallerUnlocksInv(s, s', c, xs);
    } else {
      var v, items :| ItemsChange(s, s', v, items);
      ItemsChangeInv(s, s', v, items, xs);
    }
  }

  // --------------------------------------------------------- all runs

  ghost predicate IsRun(run: seq<State>) {
    && run != [] && Init(run[0])
    && forall i :: 0 <= i < |run| - 1 ==> Step(run[i], run[i + 1])
  }

  lemma {:induction false} RunInv(run: seq<State>, i: nat)
    requires IsRun(run) && i < |run|
    ensures Inv(run[i])
    decreases i
  {
    if i == 0 {
      InitInv(run[0]);
    } else {
      RunInv(run, i - 1);
      StepInv(run[i - 1], run[i]);
    }
  }

  /** Between critical sections the list runs through each view with a position once and through no other. */
  lemma RunListsExactlyPositioned(run: seq<State>, i: nat) returns (xs: seq<View>)
    requires IsRun(run) && i < |run|
    ensures Chain(run[i].first, run[i].next, xs) && Distinct(xs)
    ensures forall v :: v in run[i].idx ==> (v in xs <==> 0 <= run[i].idx[v])
  {
    RunInv(run, i);
    xs :| InvWith(run[i], xs);
  }

  /** No lost wake-up: a worker stuck on the semaphore has an empty list, or a caller is about to post. */
  lemma RunNeverLosesWakeup(run: seq<State>, i: nat)
    requires IsRun(run) && i < |run|
    requires run[i].worker == Waiting && run[i].sem == 0 && run[i].first != None
    ensures exists c :: c in run[i].callers && run[i].callers[c].Linked?
  {
    RunInv(run, i);
  }

  // ------------------------------------------- what single steps do

  /**
   A caller's view is on the list afterwards and starts over, whether it was
   listed or not; only a new one is put in front.
  */
  lemma LinkingRestarts(s: State, s': State, c: nat)
    requires Inv(s) && CallerLinks(s, s', c)
    ensures var v := s.callers[c].view;
      && v in s'.idx && s'.idx[v] == 0 && OnList(s', v)
      && (if OnList(s, v) then s'.first == s.first && s'.next == s.next && s'.callers[c] == Leaving(v)
          else s'.first == Some(v) && s'.callers[c] == Linked(v))
  {
    var v := s.callers[c].view;
    var xs :| InvWith(s, xs);
    if OnList(s, v) {
      var ys :| Chain(s.first, s.next, ys) && v in ys;
      assert Chain(s'.first, s'.next, ys);
    } else {
      var ys := CallerLinksInv(s, s', c, xs);
      RunsThrough(s', v);
    }
  }

  lemma RunsThrough(s: State, v: View)
    requires Inv(s) && v in s.idx && 0 <= s.idx[v]
    ensures OnList(s, v)
  {
    var xs :| InvWith(s, xs);
  }

  /**
   The worker waits exactly when it found the list empty; a wait takes one post,
   and only a caller that put a view on the list posts.
  */
  lemma SemaphoreMoves(s: State, s': State)
    requires Step(s, s')
    ensures s.worker == Testing && s'.worker == Waiting ==> s.first == None
    ensures s.worker == Testing && s'.worker == Locking ==> s.first != None
    ensures s.worker == Waiting && s'.worker != Waiting ==> s'.worker == Locking && s.sem > 0 && s'.sem == s.sem - 1
    ensures s'.sem > s.sem ==>
      && s'.sem == s.sem + 1
      && exists c :: c in s.callers && c in s'.callers && s.callers[c].Linked? && s'.callers[c].Leaving?
    ensures s'.sem < s.sem ==> s.worker == Waiting && s'.worker == Locking
  {
    if c :| CallerPosts(s, s', c) {
      assert c in s.callers && s.callers[c].Linked? && c in s'.callers && s'.callers[c].Leaving?;
    }
    hide OnList, LookAt;
  }

  // ------------------------------------------- no image is forgotten

  /** Every listed view has the images of all items in front of its position. */
  ghost predicate LoadedInv(s: State) {
    forall v :: v in s.idx && v in s.items && 0 <= s.idx[v] ==> LoadedBefore(Place(s.idx[v], s.items[v]))
  }

  lemma VisitLoaded(s: State, s': State)
    requires LoadedInv(s) && WorkerVisits(s, s')
    ensures LoadedInv(s')
  {
    var v := s.worker.view.value;
    if s.idx[v] < |s.items[v]| { LookLoads(Place(s.idx[v], s.items[v])); }
    hide LookAt, LoadedBefore;
  }

  /** Nothing is forgotten where a view keeps items and position, or starts over, or is not listed. */
  lemma KeepsLoaded(s: State, s': State)
    requires LoadedInv(s)
    requires forall v :: v in s'.idx && v in s'.items && 0 < s'.idx[v] ==>
      v in s.idx && v in s.items && s'.idx[v] == s.idx[v] && s'.items[v] == s.items[v]
    ensures LoadedInv(s')
  {
  }

  lemma StepLoaded(s: State, s': State)
    requires LoadedInv(s) && Step(s, s')
    ensures LoadedInv(s')
  {
    hide LoadedInv;
    if WorkerStep(s, s') {
      if WorkerVisits(s, s') { VisitLoaded(s, s'); } else { KeepsLoaded(s, s'); }
    } else {
      CallerLoaded(s, s');
    }
  }

  lemma CallerLoaded(s: State, s': State)
    requires LoadedInv(s) && CallerStep(s, s')
    ensures LoadedInv(s')
  {
    hide LoadedInv, OnList;
    if v, items :| ItemsChange(s, s', v, items) {
    } else if c, v :| CallerLocks(s, s', c, v) {
    } else if c :| CallerLinks(s, s', c) {
    } else if c :| CallerPosts(s, s', c) {
    } else {
      var c :| CallerUnlocks(s, s', c);
    }
    KeepsLoaded(s, s');
  }

  lemma {:induction false} RunLoaded(run: seq<State>, i: nat)
    requires IsRun(run) && i < |run|
    ensures LoadedInv(run[i])
  {
    if i == 0 {
    } else {
      RunLoaded(run, i - 1);
      StepLoaded(run[i - 1], run[i]);
    }
  }

  lemma LookMoves(idx: int, items: seq<bool>)
    requires 0 <= idx < |items|
    ensures var p := LookAt(Place(idx, items)); idx < p.idx <= |items| && |p.items| == |items|
  {
  }

  /** All items of the view have their image. */
  predicate AllLoaded(items: seq<bool>) {
    forall k :: 0 <= k < |items| ==> !items[k]
  }

  lemma TakenOffLoaded(s: State, s': State, v: View)
    requires LoadedInv(s) && WorkerStep(s, s') && v in s.idx && v in s.items && 0 <= s.idx[v]
    requires v in s'.idx && s'.idx[v] < 0
    ensures v in s'.items && AllLoaded(s'.items[v])
  {
    assert WorkerVisits(s, s');
    var u := s.worker.view.value;
    if s.idx[u] < |s.items[u]| { LookMoves(s.idx[u], s.items[u]); }
    hide LookAt;
  }

  /** In every run, a view that the worker takes off the list has all its images. */
  lemma LeavesWithAllImages(run: seq<State>, i: nat, v: View)
    requires IsRun(run) && i + 1 < |run| && WorkerStep(run[i], run[i + 1])
    requires v in run[i].idx && 0 <= run[i].idx[v] && v in run[i + 1].idx && run[i + 1].idx[v] < 0
    ensures v in run[i + 1].items && AllLoaded(run[i + 1].items[v])
  {
    RunLoaded(run, i);
    RunInv(run, i);
    hide WorkerStep, IsRun, AllLoaded, LoadedInv;
    TakenOffLoaded(run[i], run[i + 1], v);
  }

  /** A step of the worker gives an image to at most one item of at most one view. */
  lemma StepLoadsOne(s: State, s': State, v: View, u: View)
    requires WorkerStep(s, s') && v in s.items && u in s.items
    ensures s'.items.Keys == s.items.Keys && AtMostOneImage(Place(0, s.items[v]), Place(0, s'.items[v]))
    ensures s'.items[v] != s.items[v] && s'.items[u] != s.items[u] ==> u == v
  {
    if WorkerVisits(s, s') {
      var w := s.worker.view.value;
      if s.idx[w] < |s.items[w]| { LookLoadsOne(s.idx[w], s.items[w]); }
    }
    hide LookAt;
  }

  lemma LookLoadsOne(idx: int, items: seq<bool>)
    requires 0 <= idx < |items|
    ensures AtMostOneImage(Place(0, items), Place(0, LookAt(Place(idx, items)).items))
  {
  }

  // ------------------------------------- the list is emptied in the end

  ghost function Left(idx: map<View, int>, items: map<View, seq<bool>>, v: View): nat {
    if v in idx && v in items && idx[v] < |items[v]| then
      if idx[v] < 0 then |items[v]| else |items[v]| - idx[v]
    else 0
  }

  /** One for every view on the list, and one for every item of it not yet looked at. */
  ghost function Work(idx: map<View, int>, items: map<View, seq<bool>>, xs: seq<View>): nat {
    if xs == [] then 0 else 1 + Left(idx, items, xs[0]) + Work(idx, items, xs[1..])
  }

  lemma {:induction false} WorkSame(s: State, s': State, xs: seq<View>)
    requires forall v :: v in xs ==> Left(s'.idx, s'.items, v) == Left(s.idx, s.items, v)
    ensures Work(s'.idx, s'.items, xs) == Work(s.idx, s.items, xs)
  {
    if xs == [] {
    } else {
      assert forall v :: v in xs[1..] ==> v in xs;
      WorkSame(s, s', xs[1..]);
    }
  }

  lemma {:induction false} WorkSplit(idx: map<View, int>, items: map<View, seq<bool>>, a: seq<View>, b: seq<View>)
    ensures Work(idx, items, a + b) == Work(idx, items, a) + Work(idx, items, b)
  {
    if a == [] {
      assert a + b == b;
    } else {
      assert (a + b)[1..] == a[1..] + b;
      WorkSplit(idx, items, a[1..], b);
    }
  }

  lemma WorkAround(idx: map<View, int>, items: map<View, seq<bool>>, xs: seq<View>, i: nat)
    requires i < |xs|
    ensures Work(idx, items, xs) == Work(idx, items, Without(xs, i)) + 1 + Left(idx, items, xs[i])
  {
    assert xs == xs[..i] + ([xs[i]] + xs[i + 1..]);
    WorkSplit(idx, items, xs[..i], [xs[i]] + xs[i + 1..]);
    WorkSplit(idx, items, [xs[i]], xs[i + 1..]);
    WorkSplit(idx, items, xs[..i], xs[i + 1..]);
    assert [xs[i]][1..] == [];
  }

  /** How far the worker is from its next visit. */
  ghost function Distance(w: Worker): nat {
    match w
    case Visiting(view, _) => if view == None then 4 else 0
    case Sleeping => 3
    case Testing => 2
    case Waiting => 2
    case Locking => 1
  }

  ghost function Rank(s: State, xs: seq<View>): nat {
    5 * Work(s.idx, s.items, xs) + Distance(s.worker)
  }

  lemma VisitFalls(s: State, s': State, xs: seq<View>) returns (ys: seq<View>)
    requires InvWith(s, xs) && WorkerVisits(s, s')
    ensures InvWith(s', ys) && Rank(s', ys) < Rank(s, xs)
  {
    hide Work, Chain, LookAt;
    var v := s.worker.view.value;
    var i :| 0 <= i <= |xs| && CursorAt(s, xs, i);
    WithoutFacts(xs, i);
    WorkAround(s.idx, s.items, xs, i);
    WorkSame(s, s', Without(xs, i));
    if |s.items[v]| <= s.idx[v] {
      VisitUnlinks(s, s', xs, i);
      ys := Without(xs, i);
    } else {
      LookMoves(s.idx[v], s.items[v]);
      VisitLoads(s, s', xs, i);
      ys := xs;
      WorkAround(s'.idx, s'.items, xs, i);
    }
  }

  /** With something on the list, every step of the worker brings the end nearer. */
  lemma WorkerFalls(s: State, s': State, xs: seq<View>) returns (ys: seq<View>)
    requires InvWith(s, xs) && xs != [] && WorkerStep(s, s')
    ensures InvWith(s', ys) && Rank(s', ys) < Rank(s, xs)
  {
    if WorkerVisits(s, s') {
      ys := VisitFalls(s, s', xs);
    } else {
      WorkerMovesInv(s, s', xs);
      ys := xs;
    }
  }

  /** No caller is inside SyncLoadImages. */
  ghost predicate Quiet(s: State) {
    forall c :: c in s.callers ==> s.callers[c] == Outside
  }

  /** With something on the list and no caller inside, the worker is never blocked. */
  lemma WorkerCanStep(s: State) returns (s': State)
    requires Inv(s) && Quiet(s) && s.first != None
    ensures WorkerStep(s, s')
  {
    var xs :| InvWith(s, xs);
    match s.worker
    case Testing => s' := s.(worker := Locking);
    case Waiting => s' := s.(sem := s.sem - 1, worker := Locking);
    case Locking => s' := s.(lock := TheWorker, worker := Visiting(s.first, None));
    case Sleeping => s' := s.(worker := Testing);
    case Visiting(view, prev) =>
      if view == None {
        s' := s.(lock := Nobody, worker := Sleeping);
      } else {
        var v := view.value;
        var i :| 0 <= i <= |xs| && CursorAt(s, xs, i);
        ChainLinks(s.first, s.next, xs, i);
        if i > 0 { ChainLinks(s.first, s.next, xs, i - 1); }
        if |s.items[v]| <= s.idx[v] {
          s' := s.(first := if prev == None then s.next[v] else s.first,
                   next := (if prev == None then s.next else s.next[prev.value := s.next[v]])[v := None],
                   idx := s.idx[v := -1],
                   worker := Visiting(s.next[v], prev));
        } else {
          var p := LookAt(Place(s.idx[v], s.items[v]));
          s' := s.(idx := s.idx[v := p.idx], items := s.items[v := p.items], worker := Visiting(s.next[v], Some(v)));
        }
        assert WorkerVisits(s, s');
      }
  }

  /** Once the callers have stopped, the worker empties the list within as many steps as its rank. */
  lemma {:induction false} ListIsEmptied(run: seq<State>, from: nat, xs: seq<View>) returns (i: nat)
    requires from < |run| && InvWith(run[from], xs)
    requires forall i :: from <= i < |run| - 1 ==> WorkerStep(run[i], run[i + 1])
    requires Rank(run[from], xs) < |run| - from
    ensures from <= i <= from + Rank(run[from], xs) && run[i].first == None
    decreases |run| - from
  {
    i := from;
    if xs == [] {
    } else {
      assert 5 <= Rank(run[from], xs);
      var ys := WorkerFalls(run[from], run[from + 1], xs);
      i := ListIsEmptied(run, from + 1, ys);
    }
  }
}
