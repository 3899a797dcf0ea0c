/** The dispatcher (UG_repl_stmt_dispatch): a statement is checked against its command's fixed
    argument count, its arguments are converted, and then it drives the library and the
    descriptor tables. Decoding (everything before the first library call) and execution are
    separate functions; `Dispatch` is their composition. */
module Commands {
  import opened Base
  import opened Convert
  import opened Parser
  import opened Storage
  import opened Descriptors

  /** The commands the dispatcher knows, in the order in which it compares their names. */
  datatype Command =
    | CmdAccess | CmdChmod | CmdChown | CmdClose | CmdClosedir | CmdCreate | CmdGetxattr
    | CmdListxattr | CmdMkdir | CmdOpen | CmdOpendir | CmdRead | CmdReaddir | CmdRemovexattr
    | CmdRename | CmdRmdir | CmdSetxattr | CmdStat | CmdSync | CmdTrunc | CmdFtrunc | CmdUnlink
    | CmdUtime | CmdWrite | CmdShell
  {
    /** The number of arguments the command's branch demands; `shell` takes any number. */
    function Arity(): Option<nat> {
      if CmdListxattr? || CmdRmdir? then Some(0)
      else if CmdClose? || CmdClosedir? || CmdOpendir? || CmdStat? || CmdSync? || CmdUnlink? then Some(1)
      else if CmdRead? || CmdUtime? then Some(3)
      else if CmdMkdir? || CmdSetxattr? || CmdWrite? then Some(4)
      else if CmdShell? then None
      else Some(2)
    }

    /** The commands that put a handle into a table. */
    predicate Opens() {
      CmdCreate? || CmdOpen? || CmdOpendir?
    }

    /** The commands that take a handle out of a table. */
    predicate Closes() {
      CmdClose? || CmdClosedir?
    }
  }

  /** The name a command is written with. */
  function Name(c: Command): string {
    if c.CmdAccess? then "access"
    else if c.CmdChmod? then "chmod"
    else if c.CmdChown? then "chown"
    else if c.CmdClose? then "close"
    else if c.CmdClosedir? then "closedir"
    else if c.CmdCreate? then "create"
    else if c.CmdGetxattr? then "getxattr"
    else if c.CmdListxattr? then "listxattr"
    else if c.CmdMkdir? then "mkdir"
    else if c.CmdOpen? then "open"
    else if c.CmdOpendir? then "opendir"
    else if c.CmdRead? then "read"
    else if c.CmdReaddir? then "readdir"
    else if c.CmdRemovexattr? then "removexattr"
    else if c.CmdRename? then "rename"
    else if c.CmdRmdir? then "rmdir"
    else if c.CmdSetxattr? then "setxattr"
    else if c.CmdStat? then "stat"
    else if c.CmdSync? then "sync"
    else if c.CmdTrunc? then "trunc"
    else if c.CmdFtrunc? then "ftrunc"
    else if c.CmdUnlink? then "unlink"
    else if c.CmdUtime? then "utime"
    else if c.CmdWrite? then "write"
    else "shell"
  }


  /** The commands in the order in which the dispatcher compares their names with a statement's
      command. */
  const COMMANDS: seq<Command> :=
    [CmdAccess, CmdChmod, CmdChown, CmdClose, CmdClosedir, CmdCreate, CmdGetxattr, CmdListxattr,
     CmdMkdir, CmdOpen, CmdOpendir, CmdRead, CmdReaddir, CmdRemovexattr, CmdRename, CmdRmdir,
     CmdSetxattr, CmdStat, CmdSync, CmdTrunc, CmdFtrunc, CmdUnlink, CmdUtime, CmdWrite, CmdShell]

  /** The comparisons from the `i`-th name on: the first command whose name is `name`, or nothing
      when none is. */
  function Find(name: string, i: nat): (r: Option<Command>)
    requires i <= |COMMANDS|
    ensures r.Some? ==> Name(r.value) == name
    decreases |COMMANDS| - i
  {
    if i == |COMMANDS| then None
    else if name == Name(COMMANDS[i]) then Some(COMMANDS[i])
    else Find(name, i + 1)
  }

  /** The dispatcher's chain of name comparisons: the command a name selects, or nothing for a
      name it does not know. */
  function Recognize(name: string): (r: Option<Command>)
    ensures r.Some? ==> Name(r.value) == name
  {
    Find(name, 0)
  }

  /** The search reaches the `k`-th command when no name before it matches. */
  lemma {:induction false} FindFrom(name: string, i: nat, k: nat)
    requires i <= k < |COMMANDS| && Name(COMMANDS[k]) == name
    requires forall j :: i <= j < k ==> Name(COMMANDS[j]) != name
    ensures Find(name, i) == Some(COMMANDS[k])
    decreases k - i
  {
    if i < k {
      FindFrom(name, i + 1, k);
    }
  }

  /** No two commands of the table share a name. */
  lemma NamesDistinct(k: nat)
    requires k < |COMMANDS|
    ensures forall j :: 0 <= j < k ==> Name(COMMANDS[j]) != Name(COMMANDS[k])
  {
  }

  /** Every command is selected by its own name. */
  lemma RecognizeName(c: Command)
    ensures Recognize(Name(c)) == Some(c)
  {
    assert c in COMMANDS;
    var k :| 0 <= k < |COMMANDS| && COMMANDS[k] == c;
    NamesDistinct(k);
    FindFrom(Name(c), 0, k);
  }

  /** The number of arguments the command called `name` demands: nothing for `shell` and for a
      name the dispatcher does not know. */
  function ArityOf(name: string): Option<nat> {
    var cmd := Recognize(name);
    if cmd.None? then None else cmd.value.Arity()
  }

  const TWO_32: int := 0x1_0000_0000
  const TWO_64: int := 0x1_0000_0000_0000_0000

  /** Conversion to a 32-bit `int` (a descriptor number or a length stored in `rc`): the value
      modulo 2^32, read as two's complement. */
  function Int32(v: int): (r: int)
    ensures -TWO_32 / 2 <= r < TWO_32 / 2
    ensures (v - r) % TWO_32 == 0
    ensures -TWO_32 / 2 <= v < TWO_32 / 2 ==> r == v
  {
    var m := v % TWO_32;
    if m >= TWO_32 / 2 then m - TWO_32 else m
  }

  /** Conversion of an unsigned 64-bit number to the signed 64-bit `time_t`. */
  function Int64(v: nat): (r: int)
    requires v <= UINT64_MAX
    ensures -TWO_64 / 2 <= r < TWO_64 / 2
    ensures r == v || r == v - TWO_64
  {
    if v >= TWO_64 / 2 then v - TWO_64 else v
  }

  /** `argv[i]` of a statement: an argument, the stored tail just after the arguments, and NULL
      beyond. */
  function Arg(stmt: Stmt, i: nat): Option<string> {
    if i < |stmt.args| then Some(stmt.args[i])
    else if i == |stmt.args| then stmt.tail
    else None
  }

  /** The non-NULL entries of `argv`, in order: the words `shell` runs. */
  function ShellWords(stmt: Stmt): seq<string> {
    stmt.args + (if stmt.tail.Some? then [stmt.tail.value] else [])
  }

  /** The command line `shell` hands to the system: each word followed by one blank. */
  function CommandLine(words: seq<string>): (line: string)
    ensures |line| == |words| + TotalLength(words)
  {
    if words == [] then [] else words[0] + " " + CommandLine(words[1..])
  }

  /** The number of characters in all the words together. */
  function TotalLength(words: seq<string>): nat {
    if words == [] then 0 else |words[0]| + TotalLength(words[1..])
  }

  /** The command line of several words is theirs, one after the other: each word is followed
      by exactly one blank, in order. */
  lemma {:induction false} CommandLineConcat(a: seq<string>, b: seq<string>)
    ensures CommandLine(a + b) == CommandLine(a) + CommandLine(b)
    decreases |a|
  {
    if a != [] {
      assert (a + b)[1..] == a[1..] + b;
      CommandLineConcat(a[1..], b);
    } else {
      assert a + b == b;
    }
  }

  /** One word's command line is the word and one blank. */
  lemma CommandLineWord(x: string)
    ensures CommandLine([x]) == x + " "
  {
    assert CommandLine([x][1..]) == [];
  }

  /** What a decoded statement asks for, with every argument converted. */
  datatype Op =
    | PathCall(call: Call)                      // one call whose status is the result
    | OpenHandle(kind: Kind, call: Call)         // create, open, opendir
    | CloseHandle(kind: Kind, fd: int)           // close, closedir
    | ReadAt(fd: int, offset: nat, len: nat)
    | WriteAt(fd: int, offset: nat, len: nat, data: string)
    | ListDir(fd: int, count: nat)
    | SyncFile(fd: int)
    | TruncHandle(fd: int, size: Result<nat>)    // the size is converted after the lookup
    | GetAttr(path: string, name: string)
    | ListAttrs(optPath: Option<string>)
    | RunShell(command: string)

  /** Statements whose command puts a handle into a table, and those whose command takes one
      out. */
  predicate Opening(stmt: Stmt) {
    Recognize(stmt.cmd).Some? && Recognize(stmt.cmd).value.Opens()
  }

  predicate Closing(stmt: Stmt) {
    Recognize(stmt.cmd).Some? && Recognize(stmt.cmd).value.Closes()
  }

  /** The checks and conversions of one command whose argument count is right. */
  function DecodeArgs(c: Command, stmt: Stmt): (r: Result<Op>)
    requires c.Arity() == Some(|stmt.args|)
    ensures r.Err? ==> r.code == -EINVAL
    ensures r.Ok? && r.value.OpenHandle? ==> c.Opens()
    ensures r.Ok? && r.value.CloseHandle? ==> c.Closes()
  {
    var args := stmt.args;
    if c.CmdAccess? then
      var mode :- ParseMode(args[1]);
      Ok(PathCall(Access(args[0], mode)))
    else if c.CmdChmod? then
      var mode :- ParseMode(args[1]);
      Ok(PathCall(Chmod(args[0], mode)))
    else if c.CmdChown? then
      // the owner is the second number parse_user_group already converted
      var ids :- ParseUserGroup(args, 0);
      Ok(PathCall(Chown(args[0], ids.1)))
    else if c.CmdClose? then
      var fd :- ParseUint64(args[0]);
      Ok(CloseHandle(File, Int32(fd)))
    else if c.CmdClosedir? then
      var fd :- ParseUint64(args[0]);
      Ok(CloseHandle(Dir, Int32(fd)))
    else if c.CmdCreate? then
      var mode :- ParseMode(args[1]);
      Ok(OpenHandle(File, Create(args[0], mode)))
    else if c.CmdGetxattr? then
      Ok(GetAttr(args[0], args[1]))
    else if c.CmdListxattr? then
      Ok(ListAttrs(Arg(stmt, 0)))
    else if c.CmdMkdir? then
      var mode :- ParseMode(args[1]);
      Ok(PathCall(Mkdir(args[0], mode)))
    else if c.CmdOpen? then
      var flags :- ParseUint64(args[1]);
      Ok(OpenHandle(File, Open(args[0], flags)))
    else if c.CmdOpendir? then
      Ok(OpenHandle(Dir, Opendir(args[0])))
    else if c.CmdRead? then
      var fd :- ParseUint64(args[0]);
      var offset :- ParseUint64(args[1]);
      var len :- ParseUint64(args[2]);
      Ok(ReadAt(Int32(fd), offset, len))
    else if c.CmdReaddir? then
      var fd :- ParseUint64(args[0]);
      var count :- ParseUint64(args[1]);
      Ok(ListDir(Int32(fd), count))
    else if c.CmdRemovexattr? then
      Ok(PathCall(Removexattr(args[0], args[1])))
    else if c.CmdRename? then
      Ok(PathCall(Rename(args[0], args[1])))
    else if c.CmdRmdir? then
      Ok(PathCall(Rmdir(Arg(stmt, 0))))
    else if c.CmdSetxattr? then
      var flags :- ParseUint64(args[2]);
      Ok(PathCall(Setxattr(args[0], args[1], args[3], flags)))
    else if c.CmdStat? then
      Ok(PathCall(Stat(Arg(stmt, 1))))
    else if c.CmdSync? then
      var fd :- ParseUint64(args[0]);
      Ok(SyncFile(Int32(fd)))
    else if c.CmdTrunc? then
      var size :- ParseUint64(args[1]);
      Ok(PathCall(Truncate(args[0], size)))
    else if c.CmdFtrunc? then
      var fd :- ParseUint64(args[0]);
      Ok(TruncHandle(Int32(fd), ParseUint64(args[1])))
    else if c.CmdUnlink? then
      Ok(PathCall(Unlink(args[0])))
    else if c.CmdUtime? then
      var atime :- ParseUint64(args[1]);
      var mtime :- ParseUint64(args[2]);
      Ok(PathCall(Utime(args[0], Int64(atime), Int64(mtime))))
    else
      assert c.CmdWrite?;
      var fd :- ParseUint64(args[0]);
      var offset :- ParseUint64(args[1]);
      var len :- ParseUint64(args[2]);
      Ok(WriteAt(Int32(fd), offset, len, args[3]))
  }

  /** Everything the dispatcher decides before its first library call. A known command with the
      wrong number of arguments, an unknown command and an argument that does not convert all
      give -EINVAL; `shell` always proceeds. */
  function Decode(stmt: Stmt): (r: Result<Op>)
    ensures r.Err? ==> r.code == -EINVAL
    ensures r.Ok? && r.value.OpenHandle? ==> Opening(stmt)
    ensures r.Ok? && r.value.CloseHandle? ==> Closing(stmt)
    ensures Recognize(stmt.cmd).None? ==> r == Err(-EINVAL)
    ensures ArityOf(stmt.cmd).Some? && ArityOf(stmt.cmd).value != |stmt.args| ==> r == Err(-EINVAL)
    ensures Recognize(stmt.cmd) == Some(CmdShell) ==> r == Ok(RunShell(CommandLine(ShellWords(stmt))))
  {
    var cmd := Recognize(stmt.cmd);
    if cmd.None? then Err(-EINVAL)
    else if cmd.value.Arity().None? then Ok(RunShell(CommandLine(ShellWords(stmt))))
    else if |stmt.args| != cmd.value.Arity().value then Err(-EINVAL)
    else DecodeArgs(cmd.value, stmt)
  }

  /** What a statement returns and the number it prints first, if it prints one. */
  datatype Outcome = Outcome(rc: int, printed: Option<int>)

  /** create, open and opendir: a handle that comes back is stored in the lowest free slot and
      that index printed; with the table full the handle is closed again and the result is
      -ENFILE; without a handle the result is 0 all the same. */
  function ExecOpen(w: World, answer: Oracle, kind: Kind, c: Call): (r: (World, Outcome))
    ensures var reply := answer(w.log, c);
      if reply.handle.None? then r == (w.(log := w.log + [c]), Outcome(0, None))
      else if Full(Table(w, kind)) then
        r == (w.(log := w.log + [c, CloseCall(kind, reply.handle.value)]), Outcome(-ENFILE, None))
      else
        var (s, i) := InsertSlot(Table(w, kind), reply.handle.value);
        r == (WithTable(w.(log := w.log + [c]), kind, s), Outcome(0, Some(i)))
  {
    var (v, reply) := Invoke(w, answer, c);
    match reply.handle {
      case None => (v, Outcome(0, None))
      case Some(h) =>
        var (v', i) := Insert(v, kind, h);
        if i < 0 then
          var (v'', _) := Invoke(v', answer, CloseCall(kind, h));
          assert v''.log == w.log + [c, CloseCall(kind, h)];
          (v'', Outcome(i, None))
        else (v', Outcome(0, Some(i)))
    }
  }

  /** read: a seek and a read on the handle; a failed read's status is the result, otherwise the
      count is printed and the result is 0. */
  function ExecRead(w: World, answer: Oracle, fd: int, offset: nat, len: nat): (r: (World, Outcome))
    ensures Lookup(w.files, fd).None? ==> r == (w, Outcome(-EBADF, None))
    ensures Lookup(w.files, fd).Some? ==>
      var h := Lookup(w.files, fd).value;
      r.0 == w.(log := w.log + [Seek(h, offset), Read(h, len)]) &&
      var rc := answer(w.log + [Seek(h, offset)], Read(h, len)).rc;
      r.1 == if rc < 0 then Outcome(rc, None) else Outcome(0, Some(rc))
  {
    match Lookup(w.files, fd) {
      case None => (w, Outcome(-EBADF, None))
      case Some(h) =>
        var (v, _) := Invoke(w, answer, Seek(h, offset));
        var (v', reply) := Invoke(v, answer, Read(h, len));
        (v', if reply.rc < 0 then Outcome(reply.rc, None) else Outcome(0, Some(reply.rc)))
    }
  }

  /** write: a seek and a write on the handle; the write's status is the result, printed when it
      is not negative. */
  function ExecWrite(w: World, answer: Oracle, fd: int, offset: nat, len: nat, data: string): (r: (World, Outcome))
    ensures Lookup(w.files, fd).None? ==> r == (w, Outcome(-EBADF, None))
    ensures Lookup(w.files, fd).Some? ==>
      var h := Lookup(w.files, fd).value;
      r.0 == w.(log := w.log + [Seek(h, offset), Write(h, data, len)]) &&
      var rc := answer(w.log + [Seek(h, offset)], Write(h, data, len)).rc;
      r.1 == Outcome(rc, if rc < 0 then None else Some(rc))
  {
    match Lookup(w.files, fd) {
      case None => (w, Outcome(-EBADF, None))
      case Some(h) =>
        var (v, _) := Invoke(w, answer, Seek(h, offset));
        var (v', reply) := Invoke(v, answer, Write(h, data, len));
        (v', Outcome(reply.rc, if reply.rc < 0 then None else Some(reply.rc)))
    }
  }

  /** readdir: without a listing the call's status is the result; with one, the variable `len`
      (never set on this path, so 0) is printed and the result is 0. */
  function ExecReaddir(w: World, answer: Oracle, fd: int, count: nat): (r: (World, Outcome))
    ensures Lookup(w.dirs, fd).None? ==> r == (w, Outcome(-EBADF, None))
    ensures Lookup(w.dirs, fd).Some? ==>
      var c := Readdir(Lookup(w.dirs, fd).value, count);
      var reply := answer(w.log, c);
      r.0 == w.(log := w.log + [c]) &&
      r.1 == if reply.listing then Outcome(0, Some(0)) else Outcome(reply.rc, None)
  {
    match Lookup(w.dirs, fd) {
      case None => (w, Outcome(-EBADF, None))
      case Some(h) =>
        var (v, reply) := Invoke(w, answer, Readdir(h, count));
        (v, if reply.listing then Outcome(0, Some(0)) else Outcome(reply.rc, None))
    }
  }

  /** sync and ftrunc: one call on the handle whose status is the result. For ftrunc the size is
      converted only once the descriptor is known to be open. */
  function ExecOnHandle(w: World, answer: Oracle, fd: int, call: Result<Handle -> Call>): (r: (World, Outcome))
    ensures Lookup(w.files, fd).None? ==> r == (w, Outcome(-EBADF, None))
    ensures Lookup(w.files, fd).Some? && call.Err? ==> r == (w, Outcome(call.code, None))
    ensures Lookup(w.files, fd).Some? && call.Ok? ==>
      var c := call.value(Lookup(w.files, fd).value);
      r == (w.(log := w.log + [c]), Outcome(answer(w.log, c).rc, None))
  {
    match Lookup(w.files, fd) {
      case None => (w, Outcome(-EBADF, None))
      case Some(h) =>
        match call {
          case Err(e) => (w, Outcome(e, None))
          case Ok(f) =>
            var (v, reply) := Invoke(w, answer, f(h));
            (v, Outcome(reply.rc, None))
        }
    }
  }

  /** getxattr: a call asking for the length, then one fetching that many bytes; a negative first
      length is the result, otherwise the second length is the result and printed unless it is
      negative. */
  function ExecGetxattr(w: World, answer: Oracle, path: string, name: string): (r: (World, Outcome))
    ensures var first := answer(w.log, Getxattr(path, name, 0)).rc;
      if first < 0 then r == (w.(log := w.log + [Getxattr(path, name, 0)]), Outcome(Int32(first), None))
      else
        var c := Getxattr(path, name, first);
        var second := answer(w.log + [Getxattr(path, name, 0)], c).rc;
        r == (w.(log := w.log + [Getxattr(path, name, 0), c]),
              Outcome(Int32(second), if second < 0 then None else Some(second)))
  {
    var (v, reply) := Invoke(w, answer, Getxattr(path, name, 0));
    if reply.rc < 0 then (v, Outcome(Int32(reply.rc), None))
    else
      var (v', reply') := Invoke(v, answer, Getxattr(path, name, reply.rc));
      assert v'.log == w.log + [Getxattr(path, name, 0), Getxattr(path, name, reply.rc)];
      (v', Outcome(Int32(reply'.rc), if reply'.rc < 0 then None else Some(reply'.rc)))
  }

  /** listxattr: like getxattr, but a failing second call still gives 0, and a successful one
      prints its length and gives 0. */
  function ExecListxattr(w: World, answer: Oracle, path: Option<string>): (r: (World, Outcome))
    ensures var first := answer(w.log, Listxattr(path, 0)).rc;
      first >= 0 ==>
        var c := Listxattr(path, first);
        var second := answer(w.log + [Listxattr(path, 0)], c).rc;
        r == (w.(log := w.log + [Listxattr(path, 0), c]), Outcome(0, if second < 0 then None else Some(second)))
    ensures var first := answer(w.log, Listxattr(path, 0)).rc;
      first < 0 ==> r == (w.(log := w.log + [Listxattr(path, 0)]), Outcome(Int32(first), None))
  {
    var (v, reply) := Invoke(w, answer, Listxattr(path, 0));
    if reply.rc < 0 then (v, Outcome(Int32(reply.rc), None))
    else
      var (v', reply') := Invoke(v, answer, Listxattr(path, reply.rc));
      assert v'.log == w.log + [Listxattr(path, 0), Listxattr(path, reply.rc)];
      (v', Outcome(0, if reply'.rc < 0 then None else Some(reply'.rc)))
  }

  /** Carrying out a decoded statement. */
  function Exec(w: World, answer: Oracle, op: Op): (r: (World, Outcome))
    ensures |r.0.files| == |w.files| && |r.0.dirs| == |w.dirs|
    ensures w.log <= r.0.log
    ensures !op.OpenHandle? && !op.CloseHandle? ==> r.0.files == w.files && r.0.dirs == w.dirs
    ensures op.PathCall? ==> r == (w.(log := w.log + [op.call]), Outcome(answer(w.log, op.call).rc, None))
    ensures op.RunShell? ==>
      var rc := answer(w.log, System(op.command)).rc;
      r == (w.(log := w.log + [System(op.command)]), Outcome(rc, Some(rc)))
  {
    match op {
      case PathCall(c) =>
        var (v, reply) := Invoke(w, answer, c);
        (v, Outcome(reply.rc, None))
      case OpenHandle(kind, c) => ExecOpen(w, answer, kind, c)
      case CloseHandle(kind, fd) =>
        var (v, rc) := CloseDescriptor(w, answer, kind, fd);
        (v, Outcome(rc, None))
      case ReadAt(fd, offset, len) => ExecRead(w, answer, fd, offset, len)
      case WriteAt(fd, offset, len, data) => ExecWrite(w, answer, fd, offset, len, data)
      case ListDir(fd, count) => ExecReaddir(w, answer, fd, count)
      case SyncFile(fd) => ExecOnHandle(w, answer, fd, Ok(h => Fsync(h)))
      case TruncHandle(fd, size) =>
        ExecOnHandle(w, answer, fd, if size.Err? then Err(size.code) else Ok(h => Ftruncate(h, size.value)))
      case GetAttr(path, name) => ExecGetxattr(w, answer, path, name)
      case ListAttrs(path) => ExecListxattr(w, answer, path)
      case RunShell(command) =>
        var (v, reply) := Invoke(w, answer, System(command));
        (v, Outcome(reply.rc, Some(reply.rc)))
    }
  }

  /** Dispatching one statement: its status, what it prints, and the new world. Only the opening
      and closing commands change a table; every statement only adds to the calls made. */
  function Dispatch(w: World, answer: Oracle, stmt: Stmt): (r: (World, Outcome))
    ensures |r.0.files| == |w.files| && |r.0.dirs| == |w.dirs|
    ensures w.log <= r.0.log
    ensures !Opening(stmt) && !Closing(stmt) ==> r.0.files == w.files && r.0.dirs == w.dirs
    ensures Decode(stmt).Err? ==> r == (w, Outcome(-EINVAL, None))
  {
    match Decode(stmt) {
      case Err(e) => (w, Outcome(e, None))
      case Ok(op) => Exec(w, answer, op)
    }
  }

  /** A statement that decodes is dispatched by carrying out what it decodes to. */
  lemma DispatchDecoded(w: World, answer: Oracle, stmt: Stmt, op: Op)
    requires Decode(stmt) == Ok(op)
    ensures Dispatch(w, answer, stmt) == Exec(w, answer, op)
  {
  }

  /** A recognised command other than shell with the right number of arguments is decoded by its
      own conversions. */
  lemma DecodeKnown(stmt: Stmt, c: Command)
    requires Recognize(stmt.cmd) == Some(c) && c.Arity() == Some(|stmt.args|)
    ensures Decode(stmt) == DecodeArgs(c, stmt)
  {
  }

  // ---------------------------------------------------------------------------------------------
  // Properties of dispatching

  /** The world and outcome of a statement that makes exactly the call `c`, returns its status
      and prints nothing. */
  function SingleCall(w: World, answer: Oracle, c: Call): (World, Outcome) {
    (w.(log := w.log + [c]), Outcome(answer(w.log, c).rc, None))
  }

  /** A known command whose conversions yield one path call is dispatched by making that call. */
  lemma PathCallDispatched(w: World, answer: Oracle, stmt: Stmt, cmd: Command, c: Call)
    requires Recognize(stmt.cmd) == Some(cmd) && cmd.Arity() == Some(|stmt.args|)
    requires DecodeArgs(cmd, stmt) == Ok(PathCall(c))
    ensures Dispatch(w, answer, stmt) == SingleCall(w, answer, c)
  {
    DecodeKnown(stmt, cmd);
    DispatchDecoded(w, answer, stmt, PathCall(c));
  }

  /** `access` converts its mode and checks the path with it: exactly one call, whose status is the
      result; no table changes and nothing is printed. */
  lemma AccessDispatched(w: World, answer: Oracle, stmt: Stmt)
    requires Recognize(stmt.cmd) == Some(CmdAccess) && |stmt.args| == 2 && ParseMode(stmt.args[1]).Ok?
    ensures Dispatch(w, answer, stmt) == SingleCall(w, answer, Access(stmt.args[0], ParseMode(stmt.args[1]).value))
  {
    var c := Access(stmt.args[0], ParseMode(stmt.args[1]).value);
    assert DecodeArgs(CmdAccess, stmt) == Ok(PathCall(c));
    PathCallDispatched(w, answer, stmt, CmdAccess, c);
  }

  /** `chmod` converts its mode and sets it on the path: exactly one call, whose status is the
      result; no table changes and nothing is printed. */
  lemma ChmodDispatched(w: World, answer: Oracle, stmt: Stmt)
    requires Recognize(stmt.cmd) == Some(CmdChmod) && |stmt.args| == 2 && ParseMode(stmt.args[1]).Ok?
    ensures Dispatch(w, answer, stmt) == SingleCall(w, answer, Chmod(stmt.args[0], ParseMode(stmt.args[1]).value))
  {
    var c := Chmod(stmt.args[0], ParseMode(stmt.args[1]).value);
    assert DecodeArgs(CmdChmod, stmt) == Ok(PathCall(c));
    PathCallDispatched(w, answer, stmt, CmdChmod, c);
  }

  /** `chown`, once both of its arguments convert as numbers, gives the path to the owner its second
      argument names: exactly one call, whose status is the result; no table changes and nothing is
      printed. */
  lemma ChownDispatched(w: World, answer: Oracle, stmt: Stmt)
    requires Recognize(stmt.cmd) == Some(CmdChown) && |stmt.args| == 2
    requires ParseUint64(stmt.args[0]).Ok? && ParseUint64(stmt.args[1]).Ok?
    ensures Dispatch(w, answer, stmt) == SingleCall(w, answer, Chown(stmt.args[0], ParseUint64(stmt.args[1]).value))
  {
    var c := Chown(stmt.args[0], ParseUint64(stmt.args[1]).value);
    DecodeKnown(stmt, CmdChown);
    DecodeArgsChown(stmt);
    DispatchDecoded(w, answer, stmt, PathCall(c));
  }

  lemma DecodeArgsChown(stmt: Stmt)
    requires |stmt.args| == 2 && ParseUint64(stmt.args[0]).Ok? && ParseUint64(stmt.args[1]).Ok?
    ensures DecodeArgs(CmdChown, stmt) == Ok(PathCall(Chown(stmt.args[0], ParseUint64(stmt.args[1]).value)))
  {
  }

  /** `mkdir`, with its four arguments, makes the directory with the mode of its second one: exactly
      one call, whose status is the result; no table changes and nothing is printed. */
  lemma MkdirDispatched(w: World, answer: Oracle, stmt: Stmt)
    requires Recognize(stmt.cmd) == Some(CmdMkdir) && |stmt.args| == 4 && ParseMode(stmt.args[1]).Ok?
    ensures Dispatch(w, answer, stmt) == SingleCall(w, answer, Mkdir(stmt.args[0], ParseMode(stmt.args[1]).value))
  {
    var c := Mkdir(stmt.args[0], ParseMode(stmt.args[1]).value);
    assert DecodeArgs(CmdMkdir, stmt) == Ok(PathCall(c));
    PathCallDispatched(w, answer, stmt, CmdMkdir, c);
  }

  /** `removexattr` removes the named attribute of the path: exactly one call, whose status is the
      result; no table changes and nothing is printed. */
  lemma RemovexattrDispatched(w: World, answer: Oracle, stmt: Stmt)
    requires Recognize(stmt.cmd) == Some(CmdRemovexattr) && |stmt.args| == 2
    ensures Dispatch(w, answer, stmt) == SingleCall(w, answer, Removexattr(stmt.args[0], stmt.args[1]))
  {
    var c := Removexattr(stmt.args[0], stmt.args[1]);
    assert DecodeArgs(CmdRemovexattr, stmt) == Ok(PathCall(c));
    PathCallDispatched(w, answer, stmt, CmdRemovexattr, c);
  }

  /** `rename` moves the first path to the second: exactly one call, whose status is the result; no
      table changes and nothing is printed. */
  lemma RenameDispatched(w: World, answer: Oracle, stmt: Stmt)
    requires Recognize(stmt.cmd) == Some(CmdRename) && |stmt.args| == 2
    ensures Dispatch(w, answer, stmt) == SingleCall(w, answer, Rename(stmt.args[0], stmt.args[1]))
  {
    var c := Rename(stmt.args[0], stmt.args[1]);
    assert DecodeArgs(CmdRename, stmt) == Ok(PathCall(c));
    PathCallDispatched(w, answer, stmt, CmdRename, c);
  }

  /** `setxattr` converts its flags (third argument) and sets the attribute to its fourth argument:
      exactly one call, whose status is the result; no table changes and nothing is printed. */
  lemma SetxattrDispatched(w: World, answer: Oracle, stmt: Stmt)
    requires Recognize(stmt.cmd) == Some(CmdSetxattr) && |stmt.args| == 4 && ParseUint64(stmt.args[2]).Ok?
    ensures Dispatch(w, answer, stmt) == SingleCall(w, answer, Setxattr(stmt.args[0], stmt.args[1], stmt.args[3], ParseUint64(stmt.args[2]).value))
  {
    var c := Setxattr(stmt.args[0], stmt.args[1], stmt.args[3], ParseUint64(stmt.args[2]).value);
    assert DecodeArgs(CmdSetxattr, stmt) == Ok(PathCall(c));
    PathCallDispatched(w, answer, stmt, CmdSetxattr, c);
  }

  /** `trunc` converts its size and truncates the path to it: exactly one call, whose status is the
      result; no table changes and nothing is printed. */
  lemma TruncDispatched(w: World, answer: Oracle, stmt: Stmt)
    requires Recognize(stmt.cmd) == Some(CmdTrunc) && |stmt.args| == 2 && ParseUint64(stmt.args[1]).Ok?
    ensures Dispatch(w, answer, stmt) == SingleCall(w, answer, Truncate(stmt.args[0], ParseUint64(stmt.args[1]).value))
  {
    var c := Truncate(stmt.args[0], ParseUint64(stmt.args[1]).value);
    assert DecodeArgs(CmdTrunc, stmt) == Ok(PathCall(c));
    PathCallDispatched(w, answer, stmt, CmdTrunc, c);
  }

  /** `unlink` removes the path: exactly one call, whose status is the result; no table changes and
      nothing is printed. */
  lemma UnlinkDispatched(w: World, answer: Oracle, stmt: Stmt)
    requires Recognize(stmt.cmd) == Some(CmdUnlink) && |stmt.args| == 1
    ensures Dispatch(w, answer, stmt) == SingleCall(w, answer, Unlink(stmt.args[0]))
  {
    var c := Unlink(stmt.args[0]);
    assert DecodeArgs(CmdUnlink, stmt) == Ok(PathCall(c));
    PathCallDispatched(w, answer, stmt, CmdUnlink, c);
  }

  /** `utime` converts both times, stores them as signed `time_t` values and sets them on the path:
      exactly one call, whose status is the result; no table changes and nothing is printed. */
  lemma UtimeDispatched(w: World, answer: Oracle, stmt: Stmt)
    requires Recognize(stmt.cmd) == Some(CmdUtime) && |stmt.args| == 3 && ParseUint64(stmt.args[1]).Ok? && ParseUint64(stmt.args[2]).Ok?
    ensures Dispatch(w, answer, stmt) == SingleCall(w, answer, Utime(stmt.args[0], Int64(ParseUint64(stmt.args[1]).value), Int64(ParseUint64(stmt.args[2]).value)))
  {
    var c := Utime(stmt.args[0], Int64(ParseUint64(stmt.args[1]).value), Int64(ParseUint64(stmt.args[2]).value));
    DecodeArgsUtime(stmt);
    PathCallDispatched(w, answer, stmt, CmdUtime, c);
  }

  lemma DecodeArgsUtime(stmt: Stmt)
    requires |stmt.args| == 3 && ParseUint64(stmt.args[1]).Ok? && ParseUint64(stmt.args[2]).Ok?
    ensures DecodeArgs(CmdUtime, stmt) ==
      Ok(PathCall(Utime(stmt.args[0], Int64(ParseUint64(stmt.args[1]).value), Int64(ParseUint64(stmt.args[2]).value))))
  {
  }

  /** shell, with any number of words, runs them as one command line, each word followed by a
      blank; the command's status is the result and is printed. */
  lemma ShellDispatched(w: World, answer: Oracle, stmt: Stmt)
    requires Recognize(stmt.cmd) == Some(CmdShell)
    ensures var c := System(CommandLine(ShellWords(stmt)));
      var rc := answer(w.log, c).rc;
      Dispatch(w, answer, stmt) == (w.(log := w.log + [c]), Outcome(rc, Some(rc)))
  {
    DispatchDecoded(w, answer, stmt, RunShell(CommandLine(ShellWords(stmt))));
  }


  /** A known command with the wrong number of arguments fails with -EINVAL before any library
      call or table change; so does a command the dispatcher does not know. */
  lemma WrongArgumentCount(w: World, answer: Oracle, stmt: Stmt)
    requires Recognize(stmt.cmd).None? || (ArityOf(stmt.cmd).Some? && ArityOf(stmt.cmd).value != |stmt.args|)
    ensures Dispatch(w, answer, stmt) == (w, Outcome(-EINVAL, None))
  {
  }

  /** read on a descriptor with no open file behind it fails with -EBADF; no call is made and
      no slot changes. */
  lemma ReadBadDescriptor(w: World, answer: Oracle, stmt: Stmt)
    requires Recognize(stmt.cmd) == Some(CmdRead) && |stmt.args| == 3
    requires ParseUint64(stmt.args[0]).Ok? && ParseUint64(stmt.args[1]).Ok? && ParseUint64(stmt.args[2]).Ok?
    requires Lookup(w.files, Int32(ParseUint64(stmt.args[0]).value)).None?
    ensures Dispatch(w, answer, stmt) == (w, Outcome(-EBADF, None))
  {
    DecodeRead(stmt);
    var args := stmt.args;
    DispatchDecoded(w, answer, stmt, ReadAt(Int32(ParseUint64(args[0]).value), ParseUint64(args[1]).value,
                                            ParseUint64(args[2]).value));
  }

  /** What a read statement whose numbers convert decodes to. */
  lemma DecodeRead(stmt: Stmt)
    requires Recognize(stmt.cmd) == Some(CmdRead) && |stmt.args| == 3
    requires ParseUint64(stmt.args[0]).Ok? && ParseUint64(stmt.args[1]).Ok? && ParseUint64(stmt.args[2]).Ok?
    ensures Decode(stmt) == Ok(ReadAt(Int32(ParseUint64(stmt.args[0]).value), ParseUint64(stmt.args[1]).value,
                                      ParseUint64(stmt.args[2]).value))
  {
    DecodeKnown(stmt, CmdRead);
    DecodeArgsRead(stmt);
  }

  lemma DecodeArgsRead(stmt: Stmt)
    requires |stmt.args| == 3
    requires ParseUint64(stmt.args[0]).Ok? && ParseUint64(stmt.args[1]).Ok? && ParseUint64(stmt.args[2]).Ok?
    ensures DecodeArgs(CmdRead, stmt) == Ok(ReadAt(Int32(ParseUint64(stmt.args[0]).value), ParseUint64(stmt.args[1]).value,
                                                ParseUint64(stmt.args[2]).value))
  {
  }

  /** write on a descriptor with no open file behind it fails with -EBADF; no call is made and
      no slot changes. */
  lemma WriteBadDescriptor(w: World, answer: Oracle, stmt: Stmt)
    requires Recognize(stmt.cmd) == Some(CmdWrite) && |stmt.args| == 4
    requires ParseUint64(stmt.args[0]).Ok? && ParseUint64(stmt.args[1]).Ok? && ParseUint64(stmt.args[2]).Ok?
    requires Lookup(w.files, Int32(ParseUint64(stmt.args[0]).value)).None?
    ensures Dispatch(w, answer, stmt) == (w, Outcome(-EBADF, None))
  {
    DecodeWrite(stmt);
    var args := stmt.args;
    DispatchDecoded(w, answer, stmt, WriteAt(Int32(ParseUint64(args[0]).value), ParseUint64(args[1]).value,
                                             ParseUint64(args[2]).value, args[3]));
  }

  /** What a write statement whose numbers convert decodes to: the data is its last argument. */
  lemma DecodeWrite(stmt: Stmt)
    requires Recognize(stmt.cmd) == Some(CmdWrite) && |stmt.args| == 4
    requires ParseUint64(stmt.args[0]).Ok? && ParseUint64(stmt.args[1]).Ok? && ParseUint64(stmt.args[2]).Ok?
    ensures Decode(stmt) == Ok(WriteAt(Int32(ParseUint64(stmt.args[0]).value), ParseUint64(stmt.args[1]).value,
                                       ParseUint64(stmt.args[2]).value, stmt.args[3]))
  {
    DecodeKnown(stmt, CmdWrite);
    DecodeArgsWrite(stmt);
  }

  lemma DecodeArgsWrite(stmt: Stmt)
    requires |stmt.args| == 4
    requires ParseUint64(stmt.args[0]).Ok? && ParseUint64(stmt.args[1]).Ok? && ParseUint64(stmt.args[2]).Ok?
    ensures DecodeArgs(CmdWrite, stmt) == Ok(WriteAt(Int32(ParseUint64(stmt.args[0]).value), ParseUint64(stmt.args[1]).value,
                                                ParseUint64(stmt.args[2]).value, stmt.args[3]))
  {
  }

  /** readdir on a descriptor with no open directory behind it fails with -EBADF; no call is made
      and no slot changes. */
  lemma ReaddirBadDescriptor(w: World, answer: Oracle, stmt: Stmt)
    requires Recognize(stmt.cmd) == Some(CmdReaddir) && |stmt.args| == 2
    requires ParseUint64(stmt.args[0]).Ok? && ParseUint64(stmt.args[1]).Ok?
    requires Lookup(w.dirs, Int32(ParseUint64(stmt.args[0]).value)).None?
    ensures Dispatch(w, answer, stmt) == (w, Outcome(-EBADF, None))
  {
    var args := stmt.args;
    var op := ListDir(Int32(ParseUint64(args[0]).value), ParseUint64(args[1]).value);
    DecodeKnown(stmt, CmdReaddir);
    assert DecodeArgs(CmdReaddir, stmt) == Ok(op);
    DispatchDecoded(w, answer, stmt, op);
  }

  /** sync on a descriptor with no open file behind it fails with -EBADF; no call is made and no
      slot changes. */
  lemma SyncBadDescriptor(w: World, answer: Oracle, stmt: Stmt)
    requires Recognize(stmt.cmd) == Some(CmdSync) && |stmt.args| == 1 && ParseUint64(stmt.args[0]).Ok?
    requires Lookup(w.files, Int32(ParseUint64(stmt.args[0]).value)).None?
    ensures Dispatch(w, answer, stmt) == (w, Outcome(-EBADF, None))
  {
    var op := SyncFile(Int32(ParseUint64(stmt.args[0]).value));
    DecodeKnown(stmt, CmdSync);
    assert DecodeArgs(CmdSync, stmt) == Ok(op);
    DispatchDecoded(w, answer, stmt, op);
  }

  /** ftrunc on a descriptor with no open file behind it fails with -EBADF, whatever its size
      argument; no call is made and no slot changes. */
  lemma FtruncBadDescriptor(w: World, answer: Oracle, stmt: Stmt)
    requires Recognize(stmt.cmd) == Some(CmdFtrunc) && |stmt.args| == 2 && ParseUint64(stmt.args[0]).Ok?
    requires Lookup(w.files, Int32(ParseUint64(stmt.args[0]).value)).None?
    ensures Dispatch(w, answer, stmt) == (w, Outcome(-EBADF, None))
  {
    var op := TruncHandle(Int32(ParseUint64(stmt.args[0]).value), ParseUint64(stmt.args[1]));
    DecodeKnown(stmt, CmdFtrunc);
    DecodeArgsFtrunc(stmt);
    DispatchDecoded(w, answer, stmt, op);
    ExecTruncBadHandle(w, answer, op.fd, op.size);
  }

  lemma ExecTruncBadHandle(w: World, answer: Oracle, fd: int, size: Result<nat>)
    requires Lookup(w.files, fd).None?
    ensures Exec(w, answer, TruncHandle(fd, size)) == (w, Outcome(-EBADF, None))
  {
  }

  lemma DecodeArgsFtrunc(stmt: Stmt)
    requires |stmt.args| == 2 && ParseUint64(stmt.args[0]).Ok?
    ensures DecodeArgs(CmdFtrunc, stmt) == Ok(TruncHandle(Int32(ParseUint64(stmt.args[0]).value), ParseUint64(stmt.args[1])))
  {
  }

  /** chown converts its path as a number, so any absolute path is rejected with -EINVAL before
      a call is made. */
  lemma ChownRejectsPath(w: World, answer: Oracle, stmt: Stmt)
    requires Recognize(stmt.cmd) == Some(CmdChown) && |stmt.args| == 2
    requires stmt.args[0] != [] && stmt.args[0][0] == '/'
    ensures Dispatch(w, answer, stmt) == (w, Outcome(-EINVAL, None))
  {
    ParseUint64NoDigits(stmt.args[0]);
  }

  /** stat demands one argument but passes `argv[1]`, which the parser leaves NULL: the library is
      asked about no path at all. */
  lemma StatPassesNoPath(w: World, answer: Oracle, path: string)
    ensures Dispatch(w, answer, Stmt("stat", [path], None)) ==
      (w.(log := w.log + [Stat(None)]), Outcome(answer(w.log, Stat(None)).rc, None))
  {
    var stmt := Stmt("stat", [path], None);
    RecognizeName(CmdStat);
    var op := PathCall(Stat(None));
    DecodeKnown(stmt, CmdStat);
    assert DecodeArgs(CmdStat, stmt) == Ok(op);
    DispatchDecoded(w, answer, stmt, op);
  }

  /** rmdir and listxattr demand no argument and pass `argv[0]`, which is then NULL. */
  lemma RmdirPassesNoPath(w: World, answer: Oracle)
    ensures Dispatch(w, answer, Stmt("rmdir", [], None)) ==
      (w.(log := w.log + [Rmdir(None)]), Outcome(answer(w.log, Rmdir(None)).rc, None))
    ensures Dispatch(w, answer, Stmt("rmdir", ["/a"], None)) == (w, Outcome(-EINVAL, None))
  {
    var stmt := Stmt("rmdir", [], None);
    RecognizeName(CmdRmdir);
    var op := PathCall(Rmdir(None));
    DecodeKnown(stmt, CmdRmdir);
    assert DecodeArgs(CmdRmdir, stmt) == Ok(op);
    DispatchDecoded(w, answer, stmt, op);
  }

  /** create, open and opendir with converted arguments open a handle and store it (see
      `ExecOpen`), in the file table for the first two and the directory table for opendir. */
  lemma OpeningCommands(w: World, answer: Oracle, stmt: Stmt)
    requires |stmt.args| == (if Recognize(stmt.cmd) == Some(CmdOpendir) then 1 else 2)
    ensures Recognize(stmt.cmd) == Some(CmdCreate) && ParseMode(stmt.args[1]).Ok? ==>
      Dispatch(w, answer, stmt) == ExecOpen(w, answer, File, Create(stmt.args[0], ParseMode(stmt.args[1]).value))
    ensures Recognize(stmt.cmd) == Some(CmdOpen) && ParseUint64(stmt.args[1]).Ok? ==>
      Dispatch(w, answer, stmt) == ExecOpen(w, answer, File, Open(stmt.args[0], ParseUint64(stmt.args[1]).value))
    ensures Recognize(stmt.cmd) == Some(CmdOpendir) ==>
      Dispatch(w, answer, stmt) == ExecOpen(w, answer, Dir, Opendir(stmt.args[0]))
  {
    if Recognize(stmt.cmd) == Some(CmdCreate) && ParseMode(stmt.args[1]).Ok? {
      CreateDispatched(w, answer, stmt);
    }
    if Recognize(stmt.cmd) == Some(CmdOpen) && ParseUint64(stmt.args[1]).Ok? {
      OpenDispatched(w, answer, stmt);
    }
    if Recognize(stmt.cmd) == Some(CmdOpendir) {
      OpendirDispatched(w, answer, stmt);
    }
  }

  lemma CreateDispatched(w: World, answer: Oracle, stmt: Stmt)
    requires Recognize(stmt.cmd) == Some(CmdCreate) && |stmt.args| == 2 && ParseMode(stmt.args[1]).Ok?
    ensures Dispatch(w, answer, stmt) == ExecOpen(w, answer, File, Create(stmt.args[0], ParseMode(stmt.args[1]).value))
  {
    var op := OpenHandle(File, Create(stmt.args[0], ParseMode(stmt.args[1]).value));
    DecodeKnown(stmt, CmdCreate);
    assert DecodeArgs(CmdCreate, stmt) == Ok(op);
    DispatchDecoded(w, answer, stmt, op);
  }

  lemma OpenDispatched(w: World, answer: Oracle, stmt: Stmt)
    requires Recognize(stmt.cmd) == Some(CmdOpen) && |stmt.args| == 2 && ParseUint64(stmt.args[1]).Ok?
    ensures Dispatch(w, answer, stmt) == ExecOpen(w, answer, File, Open(stmt.args[0], ParseUint64(stmt.args[1]).value))
  {
    var op := OpenHandle(File, Open(stmt.args[0], ParseUint64(stmt.args[1]).value));
    DecodeKnown(stmt, CmdOpen);
    assert DecodeArgs(CmdOpen, stmt) == Ok(op);
    DispatchDecoded(w, answer, stmt, op);
  }

  lemma OpendirDispatched(w: World, answer: Oracle, stmt: Stmt)
    requires Recognize(stmt.cmd) == Some(CmdOpendir) && |stmt.args| == 1
    ensures Dispatch(w, answer, stmt) == ExecOpen(w, answer, Dir, Opendir(stmt.args[0]))
  {
    var op := OpenHandle(Dir, Opendir(stmt.args[0]));
    DecodeKnown(stmt, CmdOpendir);
    assert DecodeArgs(CmdOpendir, stmt) == Ok(op);
    DispatchDecoded(w, answer, stmt, op);
  }

  /** Closing: close and closedir release the descriptor their argument names, taken as a 32-bit
      `int`, in the file or the directory table. */
  lemma ClosingCommands(w: World, answer: Oracle, stmt: Stmt)
    requires |stmt.args| == 1 && ParseUint64(stmt.args[0]).Ok?
    ensures var fd := Int32(ParseUint64(stmt.args[0]).value);
      Recognize(stmt.cmd) == Some(CmdClose) ==>
        Dispatch(w, answer, stmt) == (CloseDescriptor(w, answer, File, fd).0,
                                      Outcome(CloseDescriptor(w, answer, File, fd).1, None))
    ensures var fd := Int32(ParseUint64(stmt.args[0]).value);
      Recognize(stmt.cmd) == Some(CmdClosedir) ==>
        Dispatch(w, answer, stmt) == (CloseDescriptor(w, answer, Dir, fd).0,
                                      Outcome(CloseDescriptor(w, answer, Dir, fd).1, None))
  {
    var fd := Int32(ParseUint64(stmt.args[0]).value);
    if Recognize(stmt.cmd) == Some(CmdClose) {
      var op := CloseHandle(File, fd);
      DecodeKnown(stmt, CmdClose);
      assert DecodeArgs(CmdClose, stmt) == Ok(op);
      DispatchDecoded(w, answer, stmt, op);
    }
    if Recognize(stmt.cmd) == Some(CmdClosedir) {
      var op := CloseHandle(Dir, fd);
      DecodeKnown(stmt, CmdClosedir);
      assert DecodeArgs(CmdClosedir, stmt) == Ok(op);
      DispatchDecoded(w, answer, stmt, op);
    }
  }

  /** Closing the same descriptor twice: when the first close succeeds the second fails with
      -EBADF without a call. */
  lemma CloseStatementTwice(w: World, answer: Oracle, stmt: Stmt)
    requires Recognize(stmt.cmd) == Some(CmdClose) && |stmt.args| == 1 && ParseUint64(stmt.args[0]).Ok?
    requires Dispatch(w, answer, stmt).1.rc == 0
    ensures Dispatch(Dispatch(w, answer, stmt).0, answer, stmt) == (Dispatch(w, answer, stmt).0, Outcome(-EBADF, None))
  {
    var fd := Int32(ParseUint64(stmt.args[0]).value);
    ClosingCommands(w, answer, stmt);
    var v := Dispatch(w, answer, stmt).0;
    ClosingCommands(v, answer, stmt);
    CloseTwice(w, answer, File, fd);
  }
}
