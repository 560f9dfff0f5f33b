/**
 The objects of the undo mechanism: instances whose fields are edited, commands
 that reverse themselves (common/class-instance.cpp), the ring of commands
 (common/defundo-redo-observer.cpp) and the panel that records edits
 (uieditor/fieldpanel.cpp).  Each method is tied to the session of UndoHistory.
*/
module UndoRing {

  import opened Common
  import opened PropertyModel
  import H = UndoHistory
  import opened Wrappers

  const DEF_UNDOREDO_MIN: int := 8

  class Instance {
    const cls: Class
    var fields: Fields
    var locked: bool

    constructor (cls: Class)
      ensures this.cls == cls && fields == map[] && !locked
    {
      this.cls := cls;
      fields := map[];
      locked := false;
    }

    predicate IsSettedField(id: int)
      reads this
    {
      id in fields
    }

    function GetField(id: int): (v: int)
      reads this
      ensures v == FieldOr(cls, fields, id)
    {
      if id in fields then fields[id] else cls.FieldDefault(id)
    }

    method SetField(id: int, value: int)
      modifies this`fields
      ensures fields == SetTo(cls, locked, old(fields), id, value)
      ensures fields == if !locked && Declared(cls, id) then old(fields)[id := value] else old(fields)
    {
      SetSets(cls, locked, fields, id, value);
      if locked { return; }
      if cls.FieldType(id) == None { return; }
      if id in fields {
        if fields[id] == value {
          assert fields[id := value] == fields;
          return;
        }
        fields := fields[id := value];
      } else {
        fields := fields[id := value];
      }
    }

    method CleanField(id: int, force: bool)
      modifies this`fields
      ensures fields == CleanTo(cls, old(fields), id, force)
    {
      if !force && !cls.EnableClean(id) { return; }
      if id in fields {
        fields := fields - {id};
      } else {
        assert fields - {id} == fields;
      }
    }
  }

  class PropertyCommand {
    const inst: Instance
    const propId: int
    var oldValue: int
    var oldIsDefault: bool

    constructor (inst: Instance, propId: int, value: int, isDefault: bool)
      ensures this.inst == inst && this.propId == propId
      ensures Memo() == if isDefault then Unset else Saved(inst.cls.ToMemo(propId, value))
    {
      this.inst := inst;
      this.propId := propId;
      oldIsDefault := isDefault;
      oldValue := if !isDefault && inst.cls.FieldType(propId).Some? then value else 0;
    }

    function Memo(): Memo
      reads this
    {
      if oldIsDefault then Unset else Saved(oldValue)
    }

    function AsCommand(): H.Command<Instance>
      reads this
    {
      H.Command(inst, propId, Memo())
    }

    method Execute()
      modifies this, inst`fields
      ensures inst.fields == ExecuteFields(inst.cls, inst.locked, old(inst.fields), propId, old(Memo()))
      ensures Memo() == ExecuteMemo(inst.cls, old(inst.fields), propId, old(Memo()))
    {
      if inst.cls.FieldType(propId) == None { return; }
      var isDefault := !inst.IsSettedField(propId);
      var nowMemo: int := *;  // left unset by the source when the property has its default
      if !isDefault {
        nowMemo := inst.GetField(propId);
      }
      if oldIsDefault {
        inst.CleanField(propId, false);
      } else {
        inst.SetField(propId, oldValue);
      }
      oldIsDefault := isDefault;
      oldValue := nowMemo;
    }
  }

  ghost function WorldOf(insts: set<Instance>): H.World<Instance>
    reads insts
  {
    map i | i in insts :: i.fields
  }

  ghost function ListOf(queue: seq<PropertyCommand>): (r: seq<H.Command<Instance>>)
    reads queue
    ensures |r| == |queue|
    ensures forall k :: 0 <= k < |queue| ==> r[k] == queue[k].AsCommand()
  {
    seq(|queue|, k requires 0 <= k < |queue| reads queue => queue[k].AsCommand())
  }

  ghost function SessionOf(insts: set<Instance>, queue: seq<PropertyCommand>, cursor: nat, head: nat):
      H.Session<Instance>
    reads queue, insts
  {
    H.Session(WorldOf(insts), ListOf(queue), cursor, head)
  }

  ghost function ClassesOf(insts: set<Instance>): map<Instance, Class>
  {
    map i | i in insts :: i.cls
  }

  // --------------------------------------------------- slots of the ring

  /** The ring holds q from slot head on. */
  ghost predicate Holds(ring: seq<PropertyCommand?>, head: nat, q: seq<PropertyCommand>)
    requires |q| <= |ring| && head < |ring|
  {
    forall k :: 0 <= k < |q| ==> ring[H.Ahead(head, k, |ring|)] == q[k]
  }

  lemma HoldsSlice(ring: seq<PropertyCommand?>, head: nat, q: seq<PropertyCommand>, a: nat, b: nat)
    requires |q| < |ring| && head < |ring| && Holds(ring, head, q) && a <= b <= |q|
    ensures Holds(ring, H.Ahead(head, a, |ring|), q[a..b])
  {
    forall k | 0 <= k < b - a
      ensures ring[H.Ahead(H.Ahead(head, a, |ring|), k, |ring|)] == q[a..b][k]
    {
      H.AheadAfter(head, a, k, |ring|);
    }
  }

  lemma HoldsAppend(ring: seq<PropertyCommand?>, head: nat, q: seq<PropertyCommand>, c: PropertyCommand)
    requires |q| + 1 < |ring| && head < |ring| && Holds(ring, head, q)
    ensures Holds(ring[H.Ahead(head, |q|, |ring|) := c], head, q + [c])
  {
  }

  lemma ListOfSplice(q: seq<PropertyCommand>, a: nat, b: nat, c: PropertyCommand)
    requires a <= b <= |q|
    ensures ListOf(q[a..b] + [c]) == ListOf(q)[a..b] + [c.AsCommand()]
  {
  }

  /** The list with the command in place of the redo part, without its head when full, is the pushed one. */
  lemma PushIs(insts: set<Instance>, q: seq<PropertyCommand>, cur: nat, head: nat, c: PropertyCommand, cap: nat)
    requires 2 <= cap && cur <= |q| && cur < cap && head < cap
    ensures var a := if cur + 1 == cap then 1 else 0;
      var next := q[a..cur] + [c];
      SessionOf(insts, next, |next|, H.Ahead(head, a, cap)) ==
        H.Push(SessionOf(insts, q, cur, head), c.AsCommand(), cap)
  {
    ListOfSplice(q, if cur + 1 == cap then 1 else 0, cur, c);
    hide ListOf;
  }

  /** What push deletes: the dropped head and the redo part. */
  lemma Discarded(before: seq<PropertyCommand>, a: nat, cur: nat, cmd: PropertyCommand)
    requires Distinct(before) && a <= cur <= |before| && cmd !in before
    ensures (set c | c in before && c !in before[a..cur] + [cmd])
         == (set k | 0 <= k < a :: before[k]) + (set k | cur <= k < |before| :: before[k])
    ensures Distinct(before[a..cur] + [cmd])
  {
    var q := before[a..cur] + [cmd];
    forall k | 0 <= k < |before| ensures before[k] in q <==> a <= k < cur {
      if a <= k < cur { assert q[k - a] == before[k]; }
    }
  }

  class UndoRedoObserver {
    var commands: array<PropertyCommand?>
    var undoTail: nat
    var undoHead: nat
    var redoTail: nat
    const maxcount: nat

    ghost var queue: seq<PropertyCommand>      // the commands from undoHead to redoTail
    ghost var cursor: nat                      // how many of them lie before undoTail
    ghost var freed: set<PropertyCommand>      // the commands deleted so far
    ghost const insts: set<Instance>           // the instances the commands may be about

    ghost predicate Shape()
      reads this, commands
    {
      && 2 <= maxcount == commands.Length
      && cursor <= |queue| < maxcount && undoHead < maxcount
      && undoTail == H.Ahead(undoHead, cursor, maxcount)
      && redoTail == H.Ahead(undoHead, |queue|, maxcount)
      && Holds(commands[..], undoHead, queue)
      && Distinct(queue)
      && (forall k :: 0 <= k < |queue| ==> queue[k].inst in insts)
    }

    /** Nothing still in the list has been deleted. */
    ghost predicate Valid()
      reads this, commands
    {
      Shape() && forall k :: 0 <= k < |queue| ==> queue[k] !in freed
    }

    ghost predicate Unlocked()
      reads this, insts
    {
      forall i :: i in insts ==> !i.locked
    }

    ghost function Classes(): map<Instance, Class>
    {
      ClassesOf(insts)
    }

    ghost function Session(): H.Session<Instance>
      reads this, queue, insts
    {
      SessionOf(insts, queue, cursor, undoHead)
    }

    constructor (maxcount: int, ghost insts: set<Instance>)
      ensures Valid() && fresh(commands)
      ensures this.insts == insts && this.maxcount == if maxcount < 8 then 8 else maxcount
      ensures Session() == H.Start(WorldOf(insts)) && freed == {}
    {
      var count: nat := if DEF_UNDOREDO_MIN > maxcount then DEF_UNDOREDO_MIN else maxcount;
      this.maxcount := count;
      this.insts := insts;
      undoHead, undoTail, redoTail := 0, 0, 0;
      commands := new PropertyCommand?[count](_ => null);
      queue, cursor, freed := [], 0, {};
    }

    predicate CanUndo()
      reads this
    {
      undoTail != undoHead
    }

    predicate CanRedo()
      reads this
    {
      redoTail != undoTail
    }

    lemma CursorsTell()
      requires Shape()
      ensures CanUndo() <==> 0 < cursor
      ensures CanRedo() <==> cursor < |queue|
    {
    }

    /** The slots beside the undo tail. */
    lemma SlotsBeside()
      requires Shape()
      ensures undoTail == H.Ahead(undoHead, cursor, maxcount) && cursor <= |queue| < maxcount
      ensures 0 < cursor ==>
        (if undoTail == 0 then maxcount - 1 else undoTail - 1) == H.Ahead(undoHead, cursor - 1, maxcount)
      ensures (if undoTail + 1 == maxcount then 0 else undoTail + 1) == H.Ahead(undoHead, cursor + 1, maxcount)
    {
    }

    lemma SlotAt(k: nat)
      requires Shape() && k < |queue|
      ensures commands[H.Ahead(undoHead, k, maxcount)] == queue[k]
    {
      assert commands[..][H.Ahead(undoHead, k, maxcount)] == queue[k];
    }

    /** delete: allowed once for each command. */
    ghost method Free(c: PropertyCommand)
      requires c !in freed
      modifies this`freed
      ensures freed == old(freed) + {c}
    {
      freed := freed + {c};
    }

    /**
     Deletes the redo part and leaves the cursors alone; the loop ends only
     under this precondition (H.EmptyRedoStops).
    */
    method EmptyRedo()
      requires Valid()
      requires undoTail == redoTail || redoTail != 0
      modifies this`freed
      ensures Shape()
      ensures freed == old(freed) + set k | cursor <= k < |queue| :: queue[k]
    {
      var i := undoTail;
      ghost var n := cursor;
      while i != redoTail
        invariant cursor <= n <= |queue| && i <= maxcount
        invariant (if i == maxcount then 0 else i) == H.Ahead(undoHead, n, maxcount)
        invariant i == redoTail <==> n == |queue|
        invariant freed == old(freed) + set k | cursor <= k < n :: queue[k]
        decreases |queue| - n
      {
        if i == maxcount {
          i := 0;
        }
        SlotAt(n);
        if commands[i] != null {
          Free(commands[i]);
        }
        i := i + 1;
        n := n + 1;
      }
    }

    /** The ring without its oldest command. */
    lemma WithoutHead()
      requires Shape() && 0 < cursor
      ensures var rest := queue[1..]; var head := H.Ahead(undoHead, 1, maxcount);
        && Holds(commands[..], head, rest) && Distinct(rest) && (forall k :: 0 <= k < |rest| ==> rest[k].inst in insts)
        && H.Ahead(head, cursor - 1, maxcount) == undoTail && H.Ahead(head, |rest|, maxcount) == redoTail
        && head == (if undoHead + 1 == maxcount then 0 else undoHead + 1) < maxcount
    {
      var rest := queue[1..];
      HoldsSlice(commands[..], undoHead, queue, 1, |queue|);
      hide Holds;
      assert queue[1..|queue|] == rest && forall k :: 0 <= k < |rest| ==> rest[k] == queue[k + 1];
      H.AheadAfter(undoHead, 1, cursor - 1, maxcount);
      H.AheadAfter(undoHead, 1, |queue| - 1, maxcount);
    }

    /** Deletes the oldest command. */
    method DropHead()
      requires Shape() && 0 < cursor && queue[0] !in freed
      modifies this`undoHead, this`freed, this`queue, this`cursor
      ensures Shape() && cursor == old(cursor) - 1
      ensures queue == old(queue)[1..] && freed == old(freed) + {old(queue)[0]}
      ensures undoHead == H.Ahead(old(undoHead), 1, maxcount)
    {
      SlotAt(0);
      WithoutHead();
      hide Holds, Distinct, H.Ahead;
      if commands[undoHead] != null {
        Free(commands[undoHead]);
      }
      undoHead := undoHead + 1;
      if undoHead == maxcount {
        undoHead := 0;
      }
      queue, cursor := queue[1..], cursor - 1;
    }

    /** The rest of a push, once the redo part is gone. */
    method Append(cmd: PropertyCommand)
      requires Shape() && cmd !in queue && cmd !in freed && cmd.inst in insts
      requires forall k :: 0 <= k < cursor ==> queue[k] !in freed
      modifies this, commands
      ensures Valid() && commands == old(commands)
      ensures cursor == |queue|
      ensures var a := if old(cursor) + 1 == maxcount then 1 else 0;
        && queue == old(queue)[a..old(cursor)] + [cmd]
        && undoHead == H.Ahead(old(undoHead), a, maxcount)
        && freed == old(freed) + set k | 0 <= k < a :: old(queue)[k]
    {
      hide Holds;
      ghost var before: seq<PropertyCommand> := queue;
      var next := undoTail + 1;
      if next >= maxcount {
        next := 0;
      }
      assert next == H.Ahead(undoHead, cursor + 1, maxcount);
      ghost var a := if cursor + 1 == maxcount then 1 else 0;
      assert next == undoHead <==> a == 1;
      if next == undoHead {
        DropHead();
      }
      assert cursor == old(cursor) - a && queue == before[a..];
      assert queue[..cursor] == before[a..old(cursor)];
      PutLast(cmd, next);
    }

    /** Stores the command in the free slot behind the undo part and moves both tails there. */
    method PutLast(cmd: PropertyCommand, next: nat)
      requires Shape() && cmd !in queue && cmd !in freed && cmd.inst in insts
      requires cursor + 1 < maxcount && next == H.Ahead(undoHead, cursor + 1, maxcount)
      requires forall k :: 0 <= k < cursor ==> queue[k] !in freed
      modifies this`undoTail, this`redoTail, this`queue, this`cursor, commands
      ensures Valid() && cursor == |queue| && queue == old(queue)[..old(cursor)] + [cmd]
    {
      ghost var ring, kept := commands[..], queue[..cursor];
      HoldsSlice(ring, undoHead, queue, 0, cursor);
      HoldsAppend(ring, undoHead, kept, cmd);
      commands[undoTail] := cmd;
      assert commands[..] == ring[undoTail := cmd];
      undoTail := next;
      redoTail := undoTail;
      queue := kept + [cmd];
      cursor := |queue|;
    }

    method PushUndoRedoCommand(cmd: PropertyCommand?)
      requires Valid()
      requires cmd != null ==> cmd !in queue && cmd !in freed && cmd.inst in insts
      requires cmd != null ==> undoTail == redoTail || redoTail != 0
      modifies this, commands
      ensures Valid() && commands == old(commands)
      ensures cmd == null ==> unchanged(this, commands)
      ensures cmd != null ==>
        && Session() == H.Push(old(Session()), cmd.AsCommand(), maxcount)
        && queue == old(if cursor + 1 == maxcount then queue[1..cursor] else queue[..cursor]) + [cmd]
        && freed == old(freed) + set c | c in old(queue) && c !in queue
    {
      if cmd == null { return; }
      ghost var before, cur, head, c := queue, cursor, undoHead, cmd as PropertyCommand;
      ghost var a := if cur + 1 == maxcount then 1 else 0;
      EmptyRedo();
      Append(cmd);
      Discarded(before, a, cur, c);
      hide Shape, Distinct, H.Push;
      PushIs(insts, before, cur, head, c, maxcount);
      assert SessionOf(insts, before, cur, head) == old(Session());
    }

    /** Runs the command in slot i, the k-th of the list. */
    method RunAt(i: nat, ghost k: nat) returns (cmd: PropertyCommand?)
      requires Valid() && Unlocked()
      requires k < |queue| && i == H.Ahead(undoHead, k, maxcount)
      modifies queue, insts
      ensures Valid() && Unlocked() && cmd == queue[k]
      ensures H.Known(Classes(), old(Session())) && Session() == H.ExecuteNth(Classes(), old(Session()), k)
    {
      SlotAt(k);
      cmd := commands[i];
      if cmd != null {
        cmd.Execute();
      }
      assert WorldOf(insts) == old(WorldOf(insts))[cmd.inst := cmd.inst.fields];
      assert ListOf(queue) == old(ListOf(queue))[k := cmd.AsCommand()];
    }

    method MoveTail(i: nat, ghost k: nat)
      requires Valid() && k <= |queue| && i == H.Ahead(undoHead, k, maxcount)
      modifies this`undoTail, this`cursor
      ensures Valid() && Session() == old(Session()).(cursor := k)
      ensures undoTail == i && cursor == k
    {
      undoTail := i;
      cursor := k;
    }

    method Undo() returns (cmd: PropertyCommand?)
      requires Valid() && Unlocked()
      modifies this`undoTail, this`cursor, queue, insts
      ensures Valid() && Unlocked() && unchanged(commands)
      ensures H.Known(Classes(), old(Session())) && Session() == H.UndoOne(Classes(), old(Session()))
      ensures cmd == if old(cursor) == 0 then null else queue[cursor]
    {
      CursorsTell();
      SlotsBeside();
      hide Shape, H.Ahead, H.UndoOne;
      if !CanUndo() { return null; }
      cmd := UndoAt(if undoTail == 0 then maxcount - 1 else undoTail - 1);
    }

    lemma IsKnown()
      requires Shape()
      ensures H.Known(Classes(), Session())
    {
    }

    /** Undo, when the slot before the tail is known. */
    method UndoAt(prev: nat) returns (cmd: PropertyCommand?)
      requires Valid() && Unlocked() && 0 < cursor <= |queue| && prev == H.Ahead(undoHead, cursor - 1, maxcount)
      modifies this`undoTail, this`cursor, queue, insts
      ensures Valid() && Unlocked() && unchanged(commands) && cursor == old(cursor) - 1 && cmd == queue[cursor]
      ensures H.Known(Classes(), old(Session())) && Session() == H.UndoOne(Classes(), old(Session()))
    {
      IsKnown();
      hide Shape, H.Ahead;
      H.ExecuteNthAnywhere(Classes(), Session(), cursor - 1, cursor - 1);
      MoveTail(prev, cursor - 1);
      cmd := RunAt(undoTail, cursor);
    }

    method Redo() returns (cmd: PropertyCommand?)
      requires Valid() && Unlocked()
      modifies this`undoTail, this`cursor, queue, insts
      ensures Valid() && Unlocked() && unchanged(commands)
      ensures H.Known(Classes(), old(Session())) && Session() == H.RedoOne(Classes(), old(Session()))
      ensures cmd == if old(cursor) == |queue| then null else queue[old(cursor)]
    {
      CursorsTell();
      SlotsBeside();
      hide Shape, H.Ahead;
      if !CanRedo() { return null; }
      cmd := RunAt(undoTail, cursor);
      MoveTail(if undoTail + 1 == maxcount then 0 else undoTail + 1, cursor + 1);
    }
  }

  /** The panel that edits one instance and records the edits. */
  class FieldPanel {
    const observer: UndoRedoObserver
    var instance: Instance

    constructor (observer: UndoRedoObserver, instance: Instance)
      ensures this.observer == observer && this.instance == instance
    {
      this.observer := observer;
      this.instance := instance;
    }

    /** Pushes a command that remembers the given state of the property. */
    method Record(id: int, value: int, isDefault: bool)
      requires observer.Valid() && instance in observer.insts
      requires observer.undoTail == observer.redoTail || observer.redoTail != 0
      modifies observer, observer.commands
      ensures observer.Valid() && observer.commands == old(observer.commands)
      ensures observer.Session() ==
        H.Push(old(observer.Session()),
               H.Command(instance, id, if isDefault then Unset else Saved(instance.cls.ToMemo(id, value))),
               observer.maxcount)
    {
      var cmd := new PropertyCommand(instance, id, value, isDefault);
      observer.PushUndoRedoCommand(cmd);
    }

    method UpdateValue(id: int, value: int)
      requires observer.Valid() && observer.Unlocked() && instance in observer.insts
      requires H.Recorded(instance.cls, id) ==> observer.undoTail == observer.redoTail || observer.redoTail != 0
      modifies observer, observer.commands, instance`fields
      ensures observer.Valid() && observer.commands == old(observer.commands)
      ensures H.Known(observer.Classes(), old(observer.Session()))
      ensures observer.Session() ==
        H.EditOne(observer.Classes(), old(observer.Session()), instance, id, value, observer.maxcount)
      ensures instance.fields ==
        if id != 0 && Declared(instance.cls, id) then old(instance.fields)[id := value] else old(instance.fields)
    {
      TypedExactlyWhen(instance.cls, id);
      if id == 0 || instance.cls.FieldType(id).None? { return; }
      Record(id, instance.GetField(id), !instance.IsSettedField(id));
      ghost var s := observer.Session();
      instance.SetField(id, value);
      assert observer.Session() == s.(world := s.world[instance := instance.fields]);
    }

    method SetDefValue(id: int)
      requires observer.Valid() && observer.Unlocked() && instance in observer.insts
      requires 0 < id && FieldExists(instance.cls, instance.fields, id) ==>
        observer.undoTail == observer.redoTail || observer.redoTail != 0
      modifies observer, observer.commands, instance`fields
      ensures observer.Valid() && observer.commands == old(observer.commands)
      ensures H.Known(observer.Classes(), old(observer.Session()))
      ensures observer.Session() ==
        H.DefaultOne(observer.Classes(), old(observer.Session()), instance, id, observer.maxcount)
    {
      hide H.Push;
      if id <= 0 || !FieldExists(instance.cls, instance.fields, id) { return; }
      Record(id, instance.GetField(id), false);
      ghost var s := observer.Session();
      instance.CleanField(id, false);
      assert observer.Session() == s.(world := s.world[instance := instance.fields]);
    }
  }
}
