/** `shift_args` of the tools' common option handling: one entry of `argv` is removed in place,
    the later entries move down one place and the vacated last entry becomes NULL. */
module Common {
  import opened Base

  /** `s` without its entry at `k`. */
  function RemoveAt<T>(s: seq<T>, k: nat): (r: seq<T>)
    requires k < |s|
    ensures |r| == |s| - 1
    ensures forall i :: 0 <= i < k ==> r[i] == s[i]
    ensures forall i :: k <= i < |r| ==> r[i] == s[i + 1]
  {
    s[..k] + s[k + 1..]
  }

  /** Removing an entry keeps every other entry: the removed one and the rest make up the whole. */
  lemma RemoveAtKeepsTheRest<T>(s: seq<T>, k: nat)
    requires k < |s|
    ensures multiset(RemoveAt(s, k)) + multiset{s[k]} == multiset(s)
  {
    assert s == s[..k] + [s[k]] + s[k + 1..];
  }

  /** shift_args: removes `argv[index]` from the first `argc` entries and returns the new count.
      An index at or past `argc - 1` moves nothing; the entry at `argc - 1` becomes NULL in every
      case, and entries from `argc` on are not touched. */
  method ShiftArgs(argc: int, argv: array<Option<string>>, index: int) returns (newArgc: int)
    requires 1 <= argc <= argv.Length && 0 <= index
    modifies argv
    ensures newArgc == argc - 1
    ensures index < argc ==> argv[..argc] == RemoveAt(old(argv[..argc]), index) + [None]
    ensures forall i :: 0 <= i < argc - 1 && i < index ==> argv[i] == old(argv[i])
    ensures argv[argc - 1] == None
    ensures forall i :: argc <= i < argv.Length ==> argv[i] == old(argv[i])
  {
    var i := index;
    while i < argc - 1
      invariant index <= argc - 1 ==> index <= i <= argc - 1
      invariant index > argc - 1 ==> i == index
      invariant forall j :: 0 <= j < index && j < argv.Length ==> argv[j] == old(argv[j])
      invariant forall j :: index <= j < i ==> argv[j] == old(argv[j + 1])
      invariant forall j :: i <= j < argv.Length && index <= j ==> argv[j] == old(argv[j])
    {
      argv[i] := argv[i + 1];
      i := i + 1;
    }
    argv[argc - 1] := None;
    newArgc := argc - 1;
    ghost var was := old(argv[..argc]);
    if index < argc {
      assert argv[..argc] == RemoveAt(was, index) + [None] by {
        forall j | 0 <= j < argc
          ensures argv[..argc][j] == (RemoveAt(was, index) + [None])[j]
        {
        }
      }
    }
  }
}
