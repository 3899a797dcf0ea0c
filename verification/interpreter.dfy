/** The interpreter as the program runs it (struct UG_repl): two arrays of descriptor slots that
    statements update in place, and the library they call. Each method is proved to do what the
    functions of the Descriptors, Commands and Driver modules say. */
module Interpreter {
  import opened Base
  import opened Parser
  import opened Storage
  import opened Descriptors
  import opened Commands
  import Driver

  class Repl {
    const storage: Library
    const filedes: array<Option<Handle>>
    const dirdes: array<Option<Handle>>

    /** Two separate tables of UG_REPL_FILE_HANDLE_MAX slots each. */
    predicate Valid() {
      filedes != dirdes && filedes.Length == FILE_HANDLE_MAX && dirdes.Length == FILE_HANDLE_MAX
    }

    /** The world the specification functions speak about. */
    function State(): World
      reads filedes, dirdes, storage
    {
      World(filedes[..], dirdes[..], storage.log)
    }

    function Answer(): Oracle {
      storage.answer
    }

    function TableArray(kind: Kind): (t: array<Option<Handle>>)
      ensures t == filedes || t == dirdes
    {
      match kind
      case File => filedes
      case Dir => dirdes
    }

    /** UG_repl_new: both tables start empty. */
    constructor (storage: Library)
      ensures this.storage == storage && Valid() && fresh(filedes) && fresh(dirdes)
      ensures State() == World(Empty(FILE_HANDLE_MAX), Empty(FILE_HANDLE_MAX), storage.log)
    {
      this.storage := storage;
      filedes := new Option<Handle>[FILE_HANDLE_MAX](_ => None);
      dirdes := new Option<Handle>[FILE_HANDLE_MAX](_ => None);
    }

    /** UG_repl_filedes_insert / UG_repl_dirdes_insert: first-fit search for an empty slot. */
    method Insert(kind: Kind, h: Handle) returns (rc: int)
      requires Valid()
      modifies TableArray(kind)
      ensures (State(), rc) == Descriptors.Insert(old(State()), kind, h)
    {
      var t := TableArray(kind);
      ghost var s := t[..];
      assert s == Table(State(), kind);
      var i := 0;
      while i < FILE_HANDLE_MAX
        invariant 0 <= i <= FILE_HANDLE_MAX
        invariant forall j :: 0 <= j < i ==> t[j].Some?
        invariant t[..] == s
      {
        if t[i] == None {
          t[i] := Some(h);
          assert !Full(s) && InsertSlot(s, h).1 == i by {
            var k := InsertSlot(s, h).1;
            assert s[i].None?;
            assert !(k < i) && !(i < k);
          }
          return i;
        }
        i := i + 1;
      }
      assert Full(s);
      return -ENFILE;
    }

    /** UG_repl_filedes_close / UG_repl_dirdes_close. */
    method Close(kind: Kind, fd: int) returns (rc: int)
      requires Valid()
      modifies TableArray(kind), storage
      ensures (State(), rc) == CloseDescriptor(old(State()), Answer(), kind, fd)
    {
      var t := TableArray(kind);
      if fd < 0 || fd >= FILE_HANDLE_MAX {
        return -EBADF;
      }
      if t[fd] == None {
        return -EBADF;
      }
      var reply := storage.Perform(CloseCall(kind, t[fd].value));
      rc := reply.rc;
      if rc == 0 {
        t[fd] := None;
      }
    }

    /** UG_repl_filedes_lookup / UG_repl_dirdes_lookup. */
    method Lookup(kind: Kind, fd: int) returns (h: Option<Handle>)
      requires Valid()
      ensures h.Some? <==> 0 <= fd < FILE_HANDLE_MAX && TableArray(kind)[fd].Some?
      ensures h == Descriptors.Lookup(Table(State(), kind), fd)
    {
      var t := TableArray(kind);
      if fd < 0 || fd >= FILE_HANDLE_MAX {
        return None;
      }
      return t[fd];
    }

    /** One table of UG_repl_free: every handle is closed and its slot emptied, whether or not the
        close succeeded. */
    method Release(kind: Kind)
      requires Valid()
      modifies TableArray(kind), storage
      ensures TableArray(kind)[..] == Empty(FILE_HANDLE_MAX)
      ensures storage.log == old(storage.log) + CloseCalls(old(TableArray(kind)[..]), kind)
    {
      var t := TableArray(kind);
      ghost var s := t[..];
      var i := 0;
      while i < FILE_HANDLE_MAX
        invariant 0 <= i <= FILE_HANDLE_MAX
        invariant forall j :: 0 <= j < i ==> t[j].None?
        invariant forall j :: i <= j < FILE_HANDLE_MAX ==> t[j] == s[j]
        invariant storage.log == old(storage.log) + CloseCalls(s[..i], kind)
      {
        assert s[..i + 1][..i] == s[..i];
        if t[i] != None {
          var _ := storage.Perform(CloseCall(kind, t[i].value));
          t[i] := None;
        }
        i := i + 1;
      }
      assert s[..FILE_HANDLE_MAX] == s;
    }

    /** UG_repl_free: both tables released, files first. */
    method Free()
      requires Valid()
      modifies filedes, dirdes, storage
      ensures State() == Teardown(old(State()))
    {
      Release(File);
      Release(Dir);
    }

    /** create, open and opendir after their call: see `Commands.ExecOpen`. */
    method ExecuteOpen(kind: Kind, c: Call) returns (out: Outcome)
      requires Valid()
      modifies TableArray(kind), storage
      ensures (State(), out) == ExecOpen(old(State()), Answer(), kind, c)
    {
      var reply := storage.Perform(c);
      if reply.handle == None {
        return Outcome(0, None);
      }
      var h := reply.handle.value;
      var rc := Insert(kind, h);
      if rc < 0 {
        var _ := storage.Perform(CloseCall(kind, h));
        return Outcome(rc, None);
      }
      out := Outcome(0, Some(rc));
    }

    method ExecuteRead(fd: int, offset: nat, len: nat) returns (out: Outcome)
      requires Valid()
      modifies storage
      ensures (State(), out) == ExecRead(old(State()), Answer(), fd, offset, len)
    {
      var fh := Lookup(File, fd);
      if fh == None {
        return Outcome(-EBADF, None);
      }
      var _ := storage.Perform(Seek(fh.value, offset));
      var reply := storage.Perform(Read(fh.value, len));
      if reply.rc < 0 {
        return Outcome(reply.rc, None);
      }
      out := Outcome(0, Some(reply.rc));
    }

    method ExecuteWrite(fd: int, offset: nat, len: nat, data: string) returns (out: Outcome)
      requires Valid()
      modifies storage
      ensures (State(), out) == ExecWrite(old(State()), Answer(), fd, offset, len, data)
    {
      var fh := Lookup(File, fd);
      if fh == None {
        return Outcome(-EBADF, None);
      }
      var _ := storage.Perform(Seek(fh.value, offset));
      var reply := storage.Perform(Write(fh.value, data, len));
      if reply.rc < 0 {
        return Outcome(reply.rc, None);
      }
      out := Outcome(reply.rc, Some(reply.rc));
    }

    method ExecuteReaddir(fd: int, count: nat) returns (out: Outcome)
      requires Valid()
      modifies storage
      ensures (State(), out) == ExecReaddir(old(State()), Answer(), fd, count)
    {
      var dh := Lookup(Dir, fd);
      if dh == None {
        return Outcome(-EBADF, None);
      }
      var reply := storage.Perform(Readdir(dh.value, count));
      if !reply.listing {
        return Outcome(reply.rc, None);
      }
      out := Outcome(0, Some(0));
    }

    method ExecuteOnHandle(fd: int, call: Result<Handle -> Call>) returns (out: Outcome)
      requires Valid()
      modifies storage
      ensures (State(), out) == ExecOnHandle(old(State()), Answer(), fd, call)
    {
      var fh := Lookup(File, fd);
      if fh == None {
        return Outcome(-EBADF, None);
      }
      if call.Err? {
        return Outcome(call.code, None);
      }
      var reply := storage.Perform(call.value(fh.value));
      out := Outcome(reply.rc, None);
    }

    method ExecuteGetxattr(path: string, name: string) returns (out: Outcome)
      requires Valid()
      modifies storage
      ensures (State(), out) == ExecGetxattr(old(State()), Answer(), path, name)
    {
      var reply := storage.Perform(Getxattr(path, name, 0));
      if reply.rc < 0 {
        return Outcome(Int32(reply.rc), None);
      }
      reply := storage.Perform(Getxattr(path, name, reply.rc));
      if reply.rc < 0 {
        return Outcome(Int32(reply.rc), None);
      }
      out := Outcome(Int32(reply.rc), Some(reply.rc));
    }

    method ExecuteListxattr(path: Option<string>) returns (out: Outcome)
      requires Valid()
      modifies storage
      ensures (State(), out) == ExecListxattr(old(State()), Answer(), path)
    {
      var reply := storage.Perform(Listxattr(path, 0));
      if reply.rc < 0 {
        return Outcome(Int32(reply.rc), None);
      }
      reply := storage.Perform(Listxattr(path, reply.rc));
      if reply.rc < 0 {
        return Outcome(0, None);
      }
      out := Outcome(0, Some(reply.rc));
    }

    method Execute(op: Op) returns (out: Outcome)
      requires Valid()
      modifies filedes, dirdes, storage
      ensures (State(), out) == Exec(old(State()), Answer(), op)
    {
      match op {
        case PathCall(c) =>
          var reply := storage.Perform(c);
          out := Outcome(reply.rc, None);
        case OpenHandle(kind, c) =>
          out := ExecuteOpen(kind, c);
        case CloseHandle(kind, fd) =>
          var rc := Close(kind, fd);
          out := Outcome(rc, None);
        case ReadAt(fd, offset, len) =>
          out := ExecuteRead(fd, offset, len);
        case WriteAt(fd, offset, len, data) =>
          out := ExecuteWrite(fd, offset, len, data);
        case ListDir(fd, count) =>
          out := ExecuteReaddir(fd, count);
        case SyncFile(fd) =>
          out := ExecuteOnHandle(fd, Ok(h => Fsync(h)));
        case TruncHandle(fd, size) =>
          out := ExecuteOnHandle(fd, if size.Err? then Err(size.code) else Ok(h => Ftruncate(h, size.value)));
        case GetAttr(path, name) =>
          out := ExecuteGetxattr(path, name);
        case ListAttrs(path) =>
          out := ExecuteListxattr(path);
        case RunShell(command) =>
          var reply := storage.Perform(System(command));
          out := Outcome(reply.rc, Some(reply.rc));
      }
    }

    /** UG_repl_stmt_dispatch. */
    method Dispatch(stmt: Stmt) returns (out: Outcome)
      requires Valid()
      modifies filedes, dirdes, storage
      ensures (State(), out) == Commands.Dispatch(old(State()), Answer(), stmt)
    {
      match Decode(stmt) {
        case Err(e) =>
          out := Outcome(e, None);
        case Ok(op) =>
          out := Execute(op);
      }
    }

    /** One pass of the loop of UG_repl_main: parse a line and dispatch what it holds. */
    method Step(line: string) returns (rc: int)
      requires Valid() && line != []
      modifies filedes, dirdes, storage
      ensures (State(), rc) == Driver.Step(old(State()), Answer(), line)
    {
      var parsed := Parse(line);
      match parsed {
        case NoStatement(r) =>
          rc := r;
        case Statement(stmt) =>
          var out := Dispatch(stmt);
          rc := out.rc;
      }
    }

    /** One pass of the loop of UG_repl_main: `getline` reads the line at `pos`, which is parsed
        and dispatched; the stream is at its end when the line had no newline. */
    method RunLineAt(input: string, pos: nat, ghost goal: (World, int)) returns (rc: int, next: nat, eof: bool)
      requires Valid() && pos < |input|
      requires goal == Driver.RunFrom(State(), Answer(), input, pos)
      modifies filedes, dirdes, storage
      ensures pos < next <= |input|
      ensures eof ==> (State(), rc) == goal
      ensures !eof ==> goal == Driver.RunFrom(State(), Answer(), input, next)
    {
      next := Driver.LineEnd(input, pos);
      ghost var before := State();
      rc := Step(input[pos..next]);
      Driver.RunFromStep(before, Answer(), input, pos, State(), rc);
      eof := input[next - 1] != '\n';
    }

    /** UG_repl_main: lines are read and run until the input is exhausted. */
    method Run(input: string) returns (rc: int)
      requires Valid()
      modifies filedes, dirdes, storage
      ensures (State(), rc) == Driver.Run(old(State()), Answer(), input)
    {
      rc := 0;
      var pos := 0;
      var eof := false;
      ghost var goal := Driver.Run(State(), Answer(), input);
      while !eof
        invariant 0 <= pos <= |input|
        invariant eof ==> (State(), rc) == goal
        invariant !eof ==> goal == Driver.RunFrom(State(), Answer(), input, pos)
        decreases |input| - pos, if eof then 0 else 1
      {
        if pos == |input| {
          // getline finds nothing more: -ENODATA ends the loop with 0
          rc := 0;
          break;
        }
        rc, pos, eof := RunLineAt(input, pos, goal);
      }
    }
  }
}
