/** The storage library the interpreter drives (the `UG_*` calls), seen from outside.
    Every call the interpreter makes is recorded; what a call answers is decided by an oracle that
    may depend on every call made before it, so any deterministic library behaviour is covered.
    "No storage call was made" is "the record did not grow". */
module Storage {
  import opened Base

  /** A handle the library hands out for an open file or directory. */
  datatype Handle = Handle(id: nat)

  /** Which descriptor table a handle lives in. */
  datatype Kind = File | Dir

  /** One library call with the arguments the interpreter passes. `None` stands for a NULL path. */
  datatype Call =
    | Access(path: string, mode: nat)
    | Chmod(path: string, mode: nat)
    | Chown(path: string, owner: nat)
    | Create(path: string, mode: nat)
    | Open(path: string, flags: nat)
    | Opendir(path: string)
    | Close(handle: Handle)
    | Closedir(handle: Handle)
    | Getxattr(path: string, name: string, size: nat)
    | Listxattr(optPath: Option<string>, size: nat)
    | Mkdir(path: string, mode: nat)
    | Seek(handle: Handle, offset: nat)
    | Read(handle: Handle, len: nat)
    | Write(handle: Handle, data: string, len: nat)
    | Readdir(handle: Handle, count: nat)
    | Removexattr(path: string, name: string)
    | Rename(path: string, newPath: string)
    | Rmdir(optPath: Option<string>)
    | Setxattr(path: string, name: string, value: string, flags: nat)
    | Stat(optPath: Option<string>)
    | Fsync(handle: Handle)
    | Truncate(path: string, size: nat)
    | Ftruncate(handle: Handle, size: nat)
    | Unlink(path: string)
    | Utime(path: string, atime: int, mtime: int)
    | System(command: string)

  /** What a call gives back: its status or length, the handle it opened (if any) and, for a
      directory read, whether a listing came back. */
  datatype Reply = Reply(rc: int, handle: Option<Handle>, listing: bool)

  /** The library's behaviour: the reply to a call, given the calls made before it. */
  type Oracle = (seq<Call>, Call) -> Reply

  /** The call that releases a handle of the given kind (`UG_close` or `UG_closedir`). */
  function CloseCall(kind: Kind, h: Handle): (c: Call)
    ensures c.Close? || c.Closedir?
    ensures c.handle == h
    ensures c.Close? <==> kind == File
  {
    match kind
    case File => Close(h)
    case Dir => Closedir(h)
  }

  /** The library as the interpreter holds it: calls are made through `Perform`. */
  class Library {
    const answer: Oracle
    var log: seq<Call>

    constructor (answer: Oracle)
      ensures this.answer == answer && log == []
    {
      this.answer := answer;
      log := [];
    }

    /** Makes one call: it is recorded and answered by the oracle. */
    method Perform(c: Call) returns (r: Reply)
      modifies this
      ensures log == old(log) + [c]
      ensures r == answer(old(log), c)
    {
      r := answer(log, c);
      log := log + [c];
    }
  }
}
