/**
 The undo list of common/defundo-redo-observer.cpp as a bounded list of commands
 with a cursor, against an independent reference: the list of past states.
 I names the edited instances.
*/
module UndoHistory {

  import opened PropertyModel
  import opened Wrappers

  datatype Command<I> = Command(inst: I, id: int, memo: Memo)

  type World<I> = map<I, Fields>

  /**
   The commands between the three cursors: undo_head is head, undo_tail is head
   + cursor and redo_tail head + |commands|, all modulo the capacity.
  */
  datatype Session<I> = Session(world: World<I>, commands: seq<Command<I>>, cursor: nat, head: nat)

  datatype Op<I> = Edit(inst: I, id: int, value: int) | SetDefault(inst: I, id: int) | Undo | Redo

  ghost predicate Bounded<I>(s: Session<I>, cap: nat) {
    2 <= cap && s.cursor <= |s.commands| < cap && s.head < cap
  }

  /** k slots after slot i in a ring of cap slots. */
  function Ahead(i: nat, k: nat, cap: nat): (r: nat)
    requires i < cap && k <= cap
    ensures r < cap
  {
    if i + k < cap then i + k else i + k - cap
  }

  lemma AheadAfter(i: nat, a: nat, k: nat, cap: nat)
    requires i < cap && a < cap && a + k <= cap
    ensures Ahead(Ahead(i, a, cap), k, cap) == Ahead(i, a + k, cap)
  {
  }

  function RedoTail<I>(s: Session<I>, cap: nat): nat
    requires s.head < cap && |s.commands| <= cap
  {
    Ahead(s.head, |s.commands|, cap)
  }

  /** The loop of emptyRedo comes to an end: there is nothing to free, or redo_tail is not zero. */
  predicate CanPush<I>(s: Session<I>, cap: nat)
    requires s.head < cap && |s.commands| <= cap
  {
    s.cursor == |s.commands| || RedoTail(s, cap) != 0
  }

  function Push<I>(s: Session<I>, c: Command<I>, cap: nat): (r: Session<I>)
    requires 2 <= cap && s.cursor <= |s.commands| && s.head < cap
  {
    var kept := s.commands[..s.cursor];
    if |kept| + 1 == cap
    then s.(commands := kept[1..] + [c], head := Ahead(s.head, 1, cap))
    else s.(commands := kept + [c], cursor := s.cursor + 1)
  }

  function Execute<I>(cls: map<I, Class>, w: World<I>, c: Command<I>): (r: (World<I>, Command<I>))
    requires c.inst in cls && c.inst in w
  {
    var f := w[c.inst];
    (w[c.inst := ExecuteFields(cls[c.inst], false, f, c.id, c.memo)],
     c.(memo := ExecuteMemo(cls[c.inst], f, c.id, c.memo)))
  }

  ghost predicate Known<I>(cls: map<I, Class>, s: Session<I>) {
    && s.world.Keys == cls.Keys
    && forall k :: 0 <= k < |s.commands| ==> s.commands[k].inst in cls
  }

  /** The k-th command runs and reverses itself. */
  function ExecuteNth<I>(cls: map<I, Class>, s: Session<I>, k: nat): (r: Session<I>)
    requires Known(cls, s) && k < |s.commands|
  {
    var (w, c) := Execute(cls, s.world, s.commands[k]);
    s.(world := w, commands := s.commands[k := c])
  }

  lemma ExecuteNthAnywhere<I>(cls: map<I, Class>, s: Session<I>, k: nat, j: nat)
    requires Known(cls, s) && k < |s.commands|
    ensures ExecuteNth(cls, s.(cursor := j), k) == ExecuteNth(cls, s, k).(cursor := j)
  {
  }

  function UndoOne<I>(cls: map<I, Class>, s: Session<I>): (r: Session<I>)
    requires Known(cls, s) && s.cursor <= |s.commands|
  {
    if s.cursor == 0 then s else ExecuteNth(cls, s, s.cursor - 1).(cursor := s.cursor - 1)
  }

  function RedoOne<I>(cls: map<I, Class>, s: Session<I>): (r: Session<I>)
    requires Known(cls, s) && s.cursor <= |s.commands|
  {
    if s.cursor == |s.commands| then s else ExecuteNth(cls, s, s.cursor).(cursor := s.cursor + 1)
  }

  /** An edit that the panel records: id 0 is the id of the instance itself, and unknown properties are passed over. */
  predicate Recorded(cls: Class, id: int) {
    id != 0 && cls.FieldType(id).Some?
  }

  /** The recorded command is pushed before the field is changed. */
  function EditOne<I>(cls: map<I, Class>, s: Session<I>, inst: I, id: int, v: int, cap: nat): (r: Session<I>)
    requires 2 <= cap && Known(cls, s) && s.cursor <= |s.commands| && s.head < cap && inst in cls
  {
    var f := s.world[inst];
    if !Recorded(cls[inst], id) then s
    else Push(s, Command(inst, id, Current(f, id)), cap).(world := s.world[inst := SetTo(cls[inst], false, f, id, v)])
  }

  /** What the panel records is exactly what some class of the chain declares, and then the new value is there. */
  lemma EditSets<I>(cls: map<I, Class>, s: Session<I>, inst: I, id: int, v: int, cap: nat)
    requires 2 <= cap && Known(cls, s) && s.cursor <= |s.commands| && s.head < cap && inst in cls
    ensures Recorded(cls[inst], id) <==> id != 0 && Declared(cls[inst], id)
    ensures EditOne(cls, s, inst, id, v, cap).world ==
      if id != 0 && Declared(cls[inst], id) then s.world[inst := s.world[inst][id := v]] else s.world
  {
    TypedExactlyWhen(cls[inst], id);
  }

  /** Setting back to default remembers the value seen, even when it is the one of the class. */
  function DefaultOne<I>(cls: map<I, Class>, s: Session<I>, inst: I, id: int, cap: nat): (r: Session<I>)
    requires 2 <= cap && Known(cls, s) && s.cursor <= |s.commands| && s.head < cap && inst in cls
  {
    var f := s.world[inst];
    if id <= 0 || !FieldExists(cls[inst], f, id) then s
    else Push(s, Command(inst, id, Saved(cls[inst].ToMemo(id, FieldOr(cls[inst], f, id)))), cap)
         .(world := s.world[inst := CleanTo(cls[inst], f, id, false)])
  }

  /** A reset is recorded exactly when the instance has the property or some class of the chain a default of it. */
  lemma DefaultResets<I>(cls: map<I, Class>, s: Session<I>, inst: I, id: int, cap: nat)
    requires 2 <= cap && Known(cls, s) && s.cursor <= |s.commands| && s.head < cap && inst in cls
    ensures var f := s.world[inst]; var r := DefaultOne(cls, s, inst, id, cap);
      if 0 < id && (id in f || exists k: nat :: DefaultAt(cls[inst], k, id)) then
        && r.world == s.world[inst := CleanTo(cls[inst], f, id, false)]
        && 0 < r.cursor == |r.commands| && r.commands[r.cursor - 1].inst == inst && r.commands[r.cursor - 1].id == id
        && r.commands[r.cursor - 1].memo.Saved?
      else r == s
  {
    DefaultedExactlyWhen(cls[inst], id);
  }

  /** One user operation; None when the push inside it never returns. */
  ghost function Step<I>(cls: map<I, Class>, s: Session<I>, op: Op<I>, cap: nat): (r: Option<Session<I>>)
    requires Bounded(s, cap) && Known(cls, s)
    requires op.Edit? || op.SetDefault? ==> op.inst in cls
    ensures r.Some? ==> Bounded(r.value, cap) && Known(cls, r.value)
  {
    match op
    case Undo => Some(UndoOne(cls, s))
    case Redo => Some(RedoOne(cls, s))
    case Edit(inst, id, v) =>
      if !Recorded(cls[inst], id) then Some(s)
      else if CanPush(s, cap) then Some(EditOne(cls, s, inst, id, v, cap)) else None
    case SetDefault(inst, id) =>
      if id <= 0 || !FieldExists(cls[inst], s.world[inst], id) then Some(s)
      else if CanPush(s, cap) then Some(DefaultOne(cls, s, inst, id, cap)) else None
  }

  // ------------------------------------------ the reference: past states

  datatype History<I> = History(states: seq<World<I>>, cursor: nat)

  function Record<I>(h: History<I>, w: World<I>, cap: nat): History<I>
    requires h.cursor < |h.states|
  {
    var states := h.states[..h.cursor + 1] + [w];
    if |states| <= cap then History(states, h.cursor + 1) else History(states[1..], h.cursor)
  }

  function Remember<I>(cls: map<I, Class>, h: History<I>, op: Op<I>, cap: nat): (r: History<I>)
    requires 2 <= cap && h.cursor < |h.states|
    requires op.Edit? || op.SetDefault? ==> op.inst in cls
    ensures r.cursor < |r.states|
  {
    var w := h.states[h.cursor];
    match op
    case Undo => if h.cursor == 0 then h else h.(cursor := h.cursor - 1)
    case Redo => if h.cursor + 1 == |h.states| then h else h.(cursor := h.cursor + 1)
    case Edit(inst, id, v) =>
      if inst !in w || !Recorded(cls[inst], id) then h else Record(h, w[inst := w[inst][id := v]], cap)
    case SetDefault(inst, id) =>
      if inst !in w || id <= 0 || !FieldExists(cls[inst], w[inst], id) then h
      else Record(h, w[inst := CleanTo(cls[inst], w[inst], id, false)], cap)
  }

  /** An edit whose undo brings back the instance (EditUndone). */
  predicate EditReverts(cls: Class, f: Fields, id: int) {
    cls.FieldType(id) == Some(Plain) || id in f
  }

  /** The same for setting back to default (DefaultUndone). */
  predicate DefaultReverts(cls: Class, f: Fields, id: int) {
    cls.FieldType(id).None? || id in f
  }

  /** The operations that do nothing or whose undo brings back the state before. */
  ghost predicate Undoable<I>(cls: map<I, Class>, w: World<I>, op: Op<I>) {
    && (op.Edit? || op.SetDefault? ==> op.inst in cls && op.inst in w)
    && (op.Edit? && Recorded(cls[op.inst], op.id) ==> EditReverts(cls[op.inst], w[op.inst], op.id))
    && (op.SetDefault? && 0 < op.id && FieldExists(cls[op.inst], w[op.inst], op.id) ==>
          DefaultReverts(cls[op.inst], w[op.inst], op.id))
  }

  /**
   Consecutive states differ in the one field the command is about, and the
   command remembers the state not taken.  A text stays set, and a property
   without a type is left alone.
  */
  ghost predicate Links<I>(cls: map<I, Class>, before: World<I>, after: World<I>, c: Command<I>, done: bool) {
    && c.inst in cls && c.inst in before && c.inst in after
    && match cls[c.inst].FieldType(c.id)
       case None => after == before
       case Some(kind) =>
         && (kind == Plain || (c.id in before[c.inst] && c.id in after[c.inst]))
         && after == before[c.inst := Put(before[c.inst], c.id, Current(after[c.inst], c.id))]
         && c.memo == Current(if done then before[c.inst] else after[c.inst], c.id)
  }

  ghost predicate Follows<I>(cls: map<I, Class>, s: Session<I>, h: History<I>) {
    && Known(cls, s)
    && |h.states| == |s.commands| + 1 && s.cursor == h.cursor < |h.states|
    && s.world == h.states[h.cursor]
    && forall k :: 0 <= k < |s.commands| ==>
         Links(cls, h.states[k], h.states[k + 1], s.commands[k], k < s.cursor)
  }

  // ---------------------------------------------------------------- proofs

  lemma UndoLinked<I>(cls: map<I, Class>, before: World<I>, after: World<I>, c: Command<I>)
    requires Links(cls, before, after, c, true)
    ensures Execute(cls, after, c).0 == before
    ensures Links(cls, before, after, Execute(cls, after, c).1, false)
  {
    PutBack(before[c.inst], c.id, Current(after[c.inst], c.id));
    ExecuteSwaps(cls[c.inst], false, after[c.inst], c.id, c.memo);
  }

  lemma RedoLinked<I>(cls: map<I, Class>, before: World<I>, after: World<I>, c: Command<I>)
    requires Links(cls, before, after, c, false)
    ensures Execute(cls, before, c).0 == after
    ensures Links(cls, before, after, Execute(cls, before, c).1, true)
  {
    ExecuteSwaps(cls[c.inst], false, before[c.inst], c.id, c.memo);
  }

  lemma PushFollows<I>(cls: map<I, Class>, s: Session<I>, h: History<I>, c: Command<I>, w: World<I>, cap: nat)
    requires Bounded(s, cap) && Follows(cls, s, h)
    requires w.Keys == cls.Keys && Links(cls, s.world, w, c, true)
    ensures Follows(cls, Push(s, c, cap).(world := w), Record(h, w, cap))
  {
    assert c.inst in cls;
    hide Links;
    var s', h' := Push(s, c, cap).(world := w), Record(h, w, cap);
    var shift := if s.cursor + 1 == cap then 1 else 0;
    forall k | 0 <= k < |s'.commands|
      ensures Links(cls, h'.states[k], h'.states[k + 1], s'.commands[k], k < s'.cursor)
    {
      if k + shift < s.cursor {
        assert s'.commands[k] == s.commands[k + shift];
        assert h'.states[k] == h.states[k + shift] && h'.states[k + 1] == h.states[k + shift + 1];
      } else {
        assert s'.commands[k] == c && h'.states[k] == s.world && h'.states[k + 1] == w;
      }
    }
  }

  lemma EditLinks<I>(cls: map<I, Class>, w: World<I>, inst: I, id: int, v: int)
    requires inst in cls && inst in w && Recorded(cls[inst], id) && EditReverts(cls[inst], w[inst], id)
    ensures Links(cls, w, w[inst := w[inst][id := v]], Command(inst, id, Current(w[inst], id)), true)
  {
  }

  lemma DefaultLinks<I>(cls: map<I, Class>, w: World<I>, inst: I, id: int)
    requires inst in cls && inst in w && FieldExists(cls[inst], w[inst], id) && DefaultReverts(cls[inst], w[inst], id)
    ensures Links(cls, w, w[inst := CleanTo(cls[inst], w[inst], id, false)],
                  Command(inst, id, Saved(cls[inst].ToMemo(id, FieldOr(cls[inst], w[inst], id)))), true)
  {
    var f := w[inst];
    if cls[inst].FieldType(id) == Some(Plain) {
      assert Put(f, id, Unset) == f - {id};
    } else {
      assert id in f ==> f[id := f[id]] == f;
      assert w[inst := f] == w;
    }
  }

  lemma UndoFollows<I>(cls: map<I, Class>, s: Session<I>, h: History<I>)
    requires Follows(cls, s, h) && 0 < s.cursor
    ensures Follows(cls, UndoOne(cls, s), h.(cursor := s.cursor - 1))
  {
    var k := s.cursor - 1;
    UndoLinked(cls, h.states[k], h.states[k + 1], s.commands[k]);
    hide Links;
  }

  lemma RedoFollows<I>(cls: map<I, Class>, s: Session<I>, h: History<I>)
    requires Follows(cls, s, h) && s.cursor < |s.commands|
    ensures Follows(cls, RedoOne(cls, s), h.(cursor := s.cursor + 1))
  {
    var k := s.cursor;
    RedoLinked(cls, h.states[k], h.states[k + 1], s.commands[k]);
    hide Links;
  }

  lemma EditFollows<I>(cls: map<I, Class>, s: Session<I>, h: History<I>, inst: I, id: int, v: int, cap: nat)
    requires Bounded(s, cap) && Follows(cls, s, h)
    requires inst in cls && Recorded(cls[inst], id) && EditReverts(cls[inst], s.world[inst], id)
    ensures Follows(cls, EditOne(cls, s, inst, id, v, cap), Record(h, s.world[inst := s.world[inst][id := v]], cap))
  {
    hide Links;
    EditLinks(cls, s.world, inst, id, v);
    var c := Command(inst, id, Current(s.world[inst], id));
    PushFollows(cls, s, h, c, s.world[inst := s.world[inst][id := v]], cap);
  }

  lemma DefaultFollows<I>(cls: map<I, Class>, s: Session<I>, h: History<I>, inst: I, id: int, cap: nat)
    requires Bounded(s, cap) && Follows(cls, s, h) && inst in cls && 0 < id
    requires FieldExists(cls[inst], s.world[inst], id) && DefaultReverts(cls[inst], s.world[inst], id)
    ensures Follows(cls, DefaultOne(cls, s, inst, id, cap),
                    Record(h, s.world[inst := CleanTo(cls[inst], s.world[inst], id, false)], cap))
  {
    hide Links;
    var f := s.world[inst];
    DefaultLinks(cls, s.world, inst, id);
    var c := Command(inst, id, Saved(cls[inst].ToMemo(id, FieldOr(cls[inst], f, id))));
    PushFollows(cls, s, h, c, s.world[inst := CleanTo(cls[inst], f, id, false)], cap);
  }

  lemma StepFollows<I>(cls: map<I, Class>, s: Session<I>, h: History<I>, op: Op<I>, cap: nat)
    requires Bounded(s, cap) && Follows(cls, s, h) && Undoable(cls, s.world, op)
    ensures var r := Step(cls, s, op, cap); r.Some? ==> Follows(cls, r.value, Remember(cls, h, op, cap))
  {
    hide Links, EditOne, DefaultOne, Record, UndoOne, RedoOne;
    match op
    case Undo =>
      if 0 < s.cursor { UndoFollows(cls, s, h); } else { NothingDone(cls, s); }
    case Redo =>
      if s.cursor < |s.commands| { RedoFollows(cls, s, h); } else { NothingDone(cls, s); }
    case Edit(inst, id, v) =>
      if Recorded(cls[inst], id) { EditFollows(cls, s, h, inst, id, v, cap); }
    case SetDefault(inst, id) =>
      if 0 < id && FieldExists(cls[inst], s.world[inst], id) { DefaultFollows(cls, s, h, inst, id, cap); }
  }

  lemma NothingDone<I>(cls: map<I, Class>, s: Session<I>)
    requires Known(cls, s) && s.cursor <= |s.commands|
    ensures s.cursor == 0 ==> UndoOne(cls, s) == s
    ensures s.cursor == |s.commands| ==> RedoOne(cls, s) == s
  {
  }

  /** A whole run, stopping for good at a push that does not return. */
  ghost function Run<I>(cls: map<I, Class>, s: Session<I>, ops: seq<Op<I>>, cap: nat): (r: Option<Session<I>>)
    requires Bounded(s, cap) && Known(cls, s)
    requires forall k :: 0 <= k < |ops| && (ops[k].Edit? || ops[k].SetDefault?) ==> ops[k].inst in cls
    ensures r.Some? ==> Bounded(r.value, cap) && Known(cls, r.value)
    decreases |ops|
  {
    if ops == [] then Some(s)
    else
      var n := Step(cls, s, ops[0], cap);
      if n.None? then None else Run(cls, n.value, ops[1..], cap)
  }

  function RememberAll<I>(cls: map<I, Class>, h: History<I>, ops: seq<Op<I>>, cap: nat): (r: History<I>)
    requires 2 <= cap && h.cursor < |h.states|
    requires forall k :: 0 <= k < |ops| && (ops[k].Edit? || ops[k].SetDefault?) ==> ops[k].inst in cls
    ensures r.cursor < |r.states|
    decreases |ops|
  {
    if ops == [] then h else RememberAll(cls, Remember(cls, h, ops[0], cap), ops[1..], cap)
  }

  ghost predicate UndoableRun<I>(cls: map<I, Class>, s: Session<I>, ops: seq<Op<I>>, cap: nat)
    requires Bounded(s, cap) && Known(cls, s)
    decreases |ops|
  {
    ops != [] ==>
      && Undoable(cls, s.world, ops[0])
      && var n := Step(cls, s, ops[0], cap);
         n.Some? ==> UndoableRun(cls, n.value, ops[1..], cap)
  }

  ghost function Start<I>(w: World<I>): Session<I> {
    Session(w, [], 0, 0)
  }

  lemma {:induction false} RunFollows<I>(cls: map<I, Class>, s: Session<I>, h: History<I>, ops: seq<Op<I>>, cap: nat)
    requires Bounded(s, cap) && Follows(cls, s, h)
    requires forall k :: 0 <= k < |ops| && (ops[k].Edit? || ops[k].SetDefault?) ==> ops[k].inst in cls
    requires UndoableRun(cls, s, ops, cap)
    ensures var r := Run(cls, s, ops, cap); r.Some? ==> Follows(cls, r.value, RememberAll(cls, h, ops, cap))
    decreases |ops|
  {
    if ops == [] {
    } else {
      StepFollows(cls, s, h, ops[0], cap);
      var n := Step(cls, s, ops[0], cap);
      if n.Some? { RunFollows(cls, n.value, Remember(cls, h, ops[0], cap), ops[1..], cap); }
    }
  }

  /** After any run that returns, the live values are the remembered state at the cursor. */
  lemma RunShowsHistory<I>(cls: map<I, Class>, w: World<I>, ops: seq<Op<I>>, cap: nat)
    requires 2 <= cap && w.Keys == cls.Keys
    requires forall k :: 0 <= k < |ops| && (ops[k].Edit? || ops[k].SetDefault?) ==> ops[k].inst in cls
    requires UndoableRun(cls, Start(w), ops, cap)
    ensures var r := Run(cls, Start(w), ops, cap);
      var h := RememberAll(cls, History([w], 0), ops, cap);
      r.Some? ==>
        && r.value.world == h.states[h.cursor]
        && r.value.cursor == h.cursor && |h.states| == |r.value.commands| + 1 <= cap
  {
    RunFollows(cls, Start(w), History([w], 0), ops, cap);
  }

  function UndoMany<I>(cls: map<I, Class>, s: Session<I>, k: nat): (r: Session<I>)
    requires Known(cls, s) && s.cursor <= |s.commands|
    ensures Known(cls, r) && r.cursor <= |r.commands| == |s.commands|
    decreases k
  {
    if k == 0 then s else UndoMany(cls, UndoOne(cls, s), k - 1)
  }

  function RedoMany<I>(cls: map<I, Class>, s: Session<I>, k: nat): (r: Session<I>)
    requires Known(cls, s) && s.cursor <= |s.commands|
    ensures Known(cls, r) && r.cursor <= |r.commands| == |s.commands|
  {
    if k == 0 then s else RedoOne(cls, RedoMany(cls, s, k - 1))
  }

  lemma UndoThenRedoOne<I>(cls: map<I, Class>, s: Session<I>, h: History<I>)
    requires Follows(cls, s, h) && 0 < s.cursor
    ensures Follows(cls, UndoOne(cls, s), h.(cursor := s.cursor - 1))
    ensures RedoOne(cls, UndoOne(cls, s)) == s
  {
    var j := s.cursor - 1;
    var u := UndoOne(cls, s);
    UndoLinked(cls, h.states[j], h.states[j + 1], s.commands[j]);
    RedoLinked(cls, h.states[j], h.states[j + 1], u.commands[j]);
    assert RedoOne(cls, u).commands == s.commands;
  }

  /** k undos reach the state k edits earlier. */
  lemma {:induction false} UndoReaches<I>(cls: map<I, Class>, s: Session<I>, h: History<I>, k: nat)
    requires Follows(cls, s, h) && k <= s.cursor
    ensures Follows(cls, UndoMany(cls, s, k), h.(cursor := s.cursor - k))
    decreases k
  {
    if k == 0 {
    } else {
      UndoThenRedoOne(cls, s, h);
      UndoReaches(cls, UndoOne(cls, s), h.(cursor := s.cursor - 1), k - 1);
    }
  }

  lemma UndoThenRedoUnfolds<I>(cls: map<I, Class>, s: Session<I>, p: Session<I>, k: nat)
    requires Known(cls, s) && 0 < s.cursor <= |s.commands| && 0 < k
    requires p == UndoOne(cls, s) && RedoOne(cls, p) == s
    requires RedoMany(cls, UndoMany(cls, p, k - 1), k - 1) == p
    ensures RedoMany(cls, UndoMany(cls, s, k), k) == s
  {
    assert UndoMany(cls, s, k) == UndoMany(cls, p, k - 1);
  }

  /** Each of the next k undos is taken back by one redo. */
  ghost predicate Reversible<I>(cls: map<I, Class>, s: Session<I>, k: nat)
    decreases k
  {
    && Known(cls, s) && s.cursor <= |s.commands| && k <= s.cursor
    && (0 < k ==> var p := UndoOne(cls, s); RedoOne(cls, p) == s && Reversible(cls, p, k - 1))
  }

  lemma {:induction false} FollowsReversible<I>(cls: map<I, Class>, s: Session<I>, h: History<I>, k: nat)
    requires Follows(cls, s, h) && k <= s.cursor
    ensures Reversible(cls, s, k)
    decreases k
  {
    if k == 0 {
    } else {
      UndoThenRedoOne(cls, s, h);
      FollowsReversible(cls, UndoOne(cls, s), h.(cursor := s.cursor - 1), k - 1);
    }
  }

  lemma {:induction false} ReversibleRedoes<I>(cls: map<I, Class>, s: Session<I>, k: nat)
    requires Reversible(cls, s, k)
    ensures RedoMany(cls, UndoMany(cls, s, k), k) == s
    decreases k
  {
    if k == 0 {
    } else {
      var p := UndoOne(cls, s);
      ReversibleRedoes(cls, p, k - 1);
      UndoThenRedoUnfolds(cls, s, p, k);
    }
  }

  /** k redos after k undos restore the values and every command's memo. */
  lemma UndoThenRedo<I>(cls: map<I, Class>, s: Session<I>, h: History<I>, k: nat)
    requires Follows(cls, s, h) && k <= s.cursor
    ensures RedoMany(cls, UndoMany(cls, s, k), k) == s
  {
    FollowsReversible(cls, s, h, k);
    ReversibleRedoes(cls, s, k);
  }

  /** One undo after an edit brings the instance back exactly when the property is no text or had been set on it. */
  lemma EditUndone<I>(cls: map<I, Class>, s: Session<I>, inst: I, id: int, v: int, cap: nat)
    requires Bounded(s, cap) && Known(cls, s) && inst in cls && Recorded(cls[inst], id)
    ensures UndoOne(cls, EditOne(cls, s, inst, id, v, cap)).world == s.world
      <==> EditReverts(cls[inst], s.world[inst], id)
  {
    var f := s.world[inst];
    var d := EditOne(cls, s, inst, id, v, cap);
    assert d.commands[d.cursor - 1] == Command(inst, id, Current(f, id));
    var u := UndoOne(cls, d);
    assert u.world[inst] == ExecuteFields(cls[inst], false, f[id := v], id, Current(f, id));
    if cls[inst].FieldType(id) == Some(Plain) || id in f {
      assert u.world[inst] == f;
      assert u.world == s.world;
    } else {
      assert id in u.world[inst];
    }
  }

  /**
   One undo after setting a property back to default brings the instance back
   exactly when the property had been set on it, or has no type.
  */
  lemma DefaultUndone<I>(cls: map<I, Class>, s: Session<I>, inst: I, id: int, cap: nat)
    requires Bounded(s, cap) && Known(cls, s) && inst in cls && 0 < id
    requires FieldExists(cls[inst], s.world[inst], id)
    ensures UndoOne(cls, DefaultOne(cls, s, inst, id, cap)).world == s.world
      <==> DefaultReverts(cls[inst], s.world[inst], id)
  {
    var f := s.world[inst];
    var d := DefaultOne(cls, s, inst, id, cap);
    var c := Command(inst, id, Saved(cls[inst].ToMemo(id, FieldOr(cls[inst], f, id))));
    assert d.commands[d.cursor - 1] == c;
    var u := UndoOne(cls, d);
    assert u.world[inst] == ExecuteFields(cls[inst], false, CleanTo(cls[inst], f, id, false), id, c.memo);
    if DefaultReverts(cls[inst], f, id) {
      assert u.world[inst] == f;
      assert u.world == s.world;
    } else {
      assert id in u.world[inst];
    }
  }

  // --------------------------------------------- where emptyRedo never ends

  /** The loop index after one round of emptyRedo. */
  function NextVisit(i: nat, cap: nat): nat {
    (if i == cap then 0 else i) + 1
  }

  function Visit(tail: nat, cap: nat, n: nat): nat {
    if n == 0 then tail else NextVisit(Visit(tail, cap, n - 1), cap)
  }

  lemma {:induction false} VisitInRange(tail: nat, cap: nat, n: nat)
    requires tail < cap
    ensures Visit(tail, cap, n) <= cap && (0 < n ==> 0 < Visit(tail, cap, n))
  {
    if n == 0 {
    } else {
      VisitInRange(tail, cap, n - 1);
    }
  }

  lemma {:induction false} VisitUnwrapped(tail: nat, cap: nat, n: nat)
    requires tail < cap && n <= 2 * cap - tail
    ensures Visit(tail, cap, n) == if tail + n <= cap then tail + n else tail + n - cap
  {
    if n == 0 {
    } else {
      VisitUnwrapped(tail, cap, n - 1);
    }
  }

  /** emptyRedo stops exactly when there is nothing to free or redo_tail is not zero. */
  lemma EmptyRedoStops(tail: nat, redo: nat, cap: nat)
    requires tail < cap && redo < cap
    ensures (exists n :: Visit(tail, cap, n) == redo) <==> redo == tail || redo != 0
  {
    if redo == tail {
      assert Visit(tail, cap, 0) == redo;
    } else if redo != 0 {
      var n := if tail < redo then redo - tail else redo + cap - tail;
      VisitUnwrapped(tail, cap, n);
      assert Visit(tail, cap, n) == redo;
    } else {
      forall n ensures Visit(tail, cap, n) != redo { VisitInRange(tail, cap, n); }
    }
  }

  function Edits<I>(inst: I, id: int, n: nat): (r: seq<Op<I>>)
    ensures |r| == n
  {
    seq(n, i => Edit(inst, id, i))
  }

  lemma EditAtEnd<I>(cls: map<I, Class>, s: Session<I>, inst: I, id: int, v: int, cap: nat)
    requires Bounded(s, cap) && Known(cls, s) && inst in cls && s.cursor == |s.commands| && Recorded(cls[inst], id)
    ensures var n := EditOne(cls, s, inst, id, v, cap);
      && Step(cls, s, Edit(inst, id, v), cap) == Some(n)
      && 0 < n.cursor == |n.commands|
      && RedoTail(n, cap) == Ahead(RedoTail(s, cap), 1, cap)
  {
  }

  lemma {:induction false} RunOfEdits<I>(cls: map<I, Class>, s: Session<I>, inst: I, id: int, ops: seq<Op<I>>, cap: nat)
    requires Bounded(s, cap) && Known(cls, s) && inst in cls && s.cursor == |s.commands| && Recorded(cls[inst], id)
    requires forall k :: 0 <= k < |ops| ==> ops[k].Edit? && ops[k].inst == inst && ops[k].id == id
    requires ops != [] && RedoTail(s, cap) + |ops| <= cap
    ensures var r := Run(cls, s, ops, cap);
      && r.Some? && 0 < r.value.cursor == |r.value.commands|
      && RedoTail(r.value, cap) == Ahead(RedoTail(s, cap), |ops|, cap)
    decreases |ops|
  {
    var n := EditOne(cls, s, inst, id, ops[0].value, cap);
    EditAtEnd(cls, s, inst, id, ops[0].value, cap);
    if |ops| == 1 {
      assert Run(cls, n, ops[1..], cap) == Some(n);
    } else {
      RunOfEdits(cls, n, inst, id, ops[1..], cap);
    }
  }

  lemma {:induction false} RunSplits<I>(cls: map<I, Class>, s: Session<I>, a: seq<Op<I>>, b: seq<Op<I>>, cap: nat)
    requires Bounded(s, cap) && Known(cls, s)
    requires forall k :: 0 <= k < |a| && (a[k].Edit? || a[k].SetDefault?) ==> a[k].inst in cls
    requires forall k :: 0 <= k < |b| && (b[k].Edit? || b[k].SetDefault?) ==> b[k].inst in cls
    ensures var r := Run(cls, s, a, cap);
      Run(cls, s, a + b, cap) == if r.None? then None else Run(cls, r.value, b, cap)
    decreases |a|
  {
    if a == [] {
      assert a + b == b;
    } else {
      assert (a + b)[1..] == a[1..] + b;
      var n := Step(cls, s, a[0], cap);
      if n.Some? { RunSplits(cls, n.value, a[1..], b, cap); }
    }
  }

  lemma UndoneAtZeroHangs<I>(cls: map<I, Class>, s: Session<I>, inst: I, id: int, v: int, cap: nat)
    requires Bounded(s, cap) && Known(cls, s) && inst in cls && Recorded(cls[inst], id)
    requires 0 < s.cursor == |s.commands| && RedoTail(s, cap) == 0
    ensures Run(cls, s, [Undo, Edit(inst, id, v)], cap) == None
  {
    var ops := [Undo, Edit(inst, id, v)];
    var u := UndoOne(cls, s);
    assert Step(cls, s, ops[0], cap) == Some(u);
    assert ops[1..][0] == Edit(inst, id, v) && !CanPush(u, cap);
  }

  /** As many edits as the ring has slots, one undo, one more edit: the push never returns. */
  lemma FullRingThenEditHangs<I>(cls: map<I, Class>, w: World<I>, inst: I, id: int, v: int, cap: nat)
    requires 2 <= cap && w.Keys == cls.Keys && inst in cls && Recorded(cls[inst], id)
    ensures Run(cls, Start(w), Edits(inst, id, cap) + [Undo, Edit(inst, id, v)], cap) == None
  {
    var edits := Edits(inst, id, cap);
    var last := [Undo, Edit(inst, id, v)];
    RunOfEdits(cls, Start(w), inst, id, edits, cap);
    RunSplits(cls, Start(w), edits, last, cap);
    var s := Run(cls, Start(w), edits, cap).value;
    UndoneAtZeroHangs(cls, s, inst, id, v, cap);
    assert last[1..] == [Edit(inst, id, v)];
  }
}
