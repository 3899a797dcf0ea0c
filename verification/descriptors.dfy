/** The interpreter's two descriptor tables (open files and open directories) and what inserting,
    closing, looking up and tearing down do to them, as functions over the interpreter's world:
    both tables and the record of library calls. */
module Descriptors {
  import opened Base
  import opened Storage

  /** Slots per table (UG_REPL_FILE_HANDLE_MAX). */
  const FILE_HANDLE_MAX: nat := 1024

  /** A descriptor table: slot `i` holds the handle behind descriptor `i`, if any. */
  type Slots = seq<Option<Handle>>

  /** Everything a statement can change: the two tables and the calls made so far. */
  datatype World = World(files: Slots, dirs: Slots, log: seq<Call>)

  function Table(w: World, kind: Kind): Slots {
    match kind
    case File => w.files
    case Dir => w.dirs
  }

  /** `w` with the table of `kind` replaced by `s`; the other table and the record are kept. */
  function WithTable(w: World, kind: Kind, s: Slots): (v: World)
    ensures Table(v, kind) == s && v.log == w.log
    ensures kind == File ==> v.dirs == w.dirs
    ensures kind == Dir ==> v.files == w.files
  {
    match kind
    case File => w.(files := s)
    case Dir => w.(dirs := s)
  }

  /** Making one library call: it is recorded and the oracle answers it. */
  function Invoke(w: World, answer: Oracle, c: Call): (r: (World, Reply))
    ensures r.0 == w.(log := w.log + [c])
    ensures r.1 == answer(w.log, c)
  {
    (w.(log := w.log + [c]), answer(w.log, c))
  }

  /** A table with `n` empty slots. */
  function Empty(n: nat): (s: Slots)
    ensures |s| == n && forall i :: 0 <= i < n ==> s[i].None?
  {
    seq(n, _ => None)
  }

  predicate Full(s: Slots) {
    forall i :: 0 <= i < |s| ==> s[i].Some?
  }

  /** The lowest empty slot, if there is one. */
  function FirstFree(s: Slots): (r: Option<nat>)
    ensures r.None? <==> Full(s)
    ensures r.Some? ==> r.value < |s| && s[r.value].None?
    ensures r.Some? ==> forall i :: 0 <= i < r.value ==> s[i].Some?
  {
    if s == [] then None
    else if s[0].None? then Some(0)
    else match FirstFree(s[1..]) {
      case None => None
      case Some(i) => Some(i + 1)
    }
  }

  /** First-fit insertion: the handle goes into the lowest empty slot, whose index is returned;
      a full table is left alone and the result is -ENFILE. */
  function InsertSlot(s: Slots, h: Handle): (r: (Slots, int))
    ensures Full(s) ==> r == (s, -ENFILE)
    ensures !Full(s) ==> 0 <= r.1 < |s| && s[r.1].None? && r.0 == s[r.1 := Some(h)]
    ensures !Full(s) ==> forall i :: 0 <= i < r.1 ==> s[i].Some?
  {
    match FirstFree(s) {
      case None => (s, -ENFILE)
      case Some(i) => (s[i := Some(h)], i)
    }
  }

  function Insert(w: World, kind: Kind, h: Handle): (r: (World, int))
    ensures r.0 == WithTable(w, kind, InsertSlot(Table(w, kind), h).0)
    ensures r.1 == InsertSlot(Table(w, kind), h).1
  {
    var (s, i) := InsertSlot(Table(w, kind), h);
    (WithTable(w, kind, s), i)
  }

  /** The handle behind descriptor `fd`; nothing for an index outside the table. */
  function Lookup(s: Slots, fd: int): (r: Option<Handle>)
    ensures r.Some? <==> 0 <= fd < |s| && s[fd].Some?
    ensures r.Some? ==> r == s[fd]
  {
    if fd < 0 || fd >= |s| then None else s[fd]
  }

  /** Closing descriptor `fd`: -EBADF without any call when no handle is behind it; otherwise the
      library closes the handle and the slot is emptied exactly when that close returns 0. */
  function CloseDescriptor(w: World, answer: Oracle, kind: Kind, fd: int): (r: (World, int))
    ensures Lookup(Table(w, kind), fd).None? ==> r == (w, -EBADF)
    ensures Lookup(Table(w, kind), fd).Some? ==>
      var c := CloseCall(kind, Table(w, kind)[fd].value);
      var rc := answer(w.log, c).rc;
      r.1 == rc &&
      r.0 == WithTable(w.(log := w.log + [c]), kind, if rc == 0 then Table(w, kind)[fd := None] else Table(w, kind))
  {
    var s := Table(w, kind);
    if fd < 0 || fd >= |s| || s[fd].None? then (w, -EBADF)
    else
      var (v, reply) := Invoke(w, answer, CloseCall(kind, s[fd].value));
      if reply.rc == 0 then (WithTable(v, kind, s[fd := None]), 0) else (v, reply.rc)
  }

  /** The close calls teardown makes for a table, one per occupied slot, in slot order. */
  function CloseCalls(s: Slots, kind: Kind): seq<Call> {
    if s == [] then []
    else
      var last := s[|s| - 1];
      CloseCalls(s[..|s| - 1], kind) + (if last.Some? then [CloseCall(kind, last.value)] else [])
  }

  /** Teardown (UG_repl_free): every handle of both tables is closed, files first, and every
      slot ends up empty whether or not its close succeeded. */
  function Teardown(w: World): (v: World)
    ensures |v.files| == |w.files| && !exists i :: 0 <= i < |v.files| && v.files[i].Some?
    ensures |v.dirs| == |w.dirs| && !exists i :: 0 <= i < |v.dirs| && v.dirs[i].Some?
    ensures v.log == w.log + CloseCalls(w.files, File) + CloseCalls(w.dirs, Dir)
  {
    World(Empty(|w.files|), Empty(|w.dirs|), w.log + CloseCalls(w.files, File) + CloseCalls(w.dirs, Dir))
  }

  // ---------------------------------------------------------------------------------------------
  // Properties

  /** The number of occupied slots. */
  function Occupied(s: Slots): nat {
    if s == [] then 0 else Occupied(s[..|s| - 1]) + (if s[|s| - 1].Some? then 1 else 0)
  }

  /** Teardown closes exactly the handles in the table: one close per occupied slot, each naming
      the handle of an occupied slot, and every occupied slot's handle among them. */
  lemma {:induction false} CloseCallsExact(s: Slots, kind: Kind)
    ensures |CloseCalls(s, kind)| == Occupied(s)
    ensures forall c :: c in CloseCalls(s, kind) ==>
      exists i :: 0 <= i < |s| && s[i].Some? && c == CloseCall(kind, s[i].value)
    ensures forall i :: 0 <= i < |s| && s[i].Some? ==> CloseCall(kind, s[i].value) in CloseCalls(s, kind)
    decreases |s|
  {
    if s != [] {
      var init := s[..|s| - 1];
      CloseCallsExact(init, kind);
      forall c | c in CloseCalls(s, kind)
        ensures exists i :: 0 <= i < |s| && s[i].Some? && c == CloseCall(kind, s[i].value)
      {
        if c in CloseCalls(init, kind) {
          var i :| 0 <= i < |init| && init[i].Some? && c == CloseCall(kind, init[i].value);
          assert s[i] == init[i];
        } else {
          assert c == CloseCall(kind, s[|s| - 1].value);
        }
      }
      forall i | 0 <= i < |s| && s[i].Some?
        ensures CloseCall(kind, s[i].value) in CloseCalls(s, kind)
      {
        if i < |s| - 1 {
          assert s[i] == init[i];
        }
      }
    }
  }

  /** A successful close frees the descriptor: closing it again fails with -EBADF and makes no
      library call. */
  lemma CloseTwice(w: World, answer: Oracle, kind: Kind, fd: int)
    requires CloseDescriptor(w, answer, kind, fd).1 == 0
    ensures CloseDescriptor(CloseDescriptor(w, answer, kind, fd).0, answer, kind, fd) == (CloseDescriptor(w, answer, kind, fd).0, -EBADF)
  {
    var v := CloseDescriptor(w, answer, kind, fd).0;
    assert Lookup(Table(w, kind), fd).Some?;
    assert Table(v, kind)[fd].None?;
  }

  /** A successful close makes its slot the one the next insertion uses, when every slot below it
      is occupied. */
  lemma CloseThenInsert(w: World, answer: Oracle, kind: Kind, fd: int, h: Handle)
    requires CloseDescriptor(w, answer, kind, fd).1 == 0
    requires forall i :: 0 <= i < fd ==> Table(w, kind)[i].Some?
    ensures Insert(CloseDescriptor(w, answer, kind, fd).0, kind, h).1 == fd
  {
    var v := CloseDescriptor(w, answer, kind, fd).0;
    assert Lookup(Table(w, kind), fd).Some?;
    var s := Table(v, kind);
    assert s == Table(w, kind)[fd := None];
    assert !Full(s) by { assert s[fd].None?; }
    assert forall i :: 0 <= i < fd ==> s[i].Some?;
    var i := InsertSlot(s, h).1;
    assert s[i].None?;
    assert !(fd < i) by { assert s[fd].None?; }
  }
}
