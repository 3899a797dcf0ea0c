# Syndicate REPL script interpreter, modelled in Dafny

This project models the script interpreter of Syndicate's user-gateway tools
(`ug-tools/syndicate-repl.cpp`). The interpreter reads a script one line at a time. It splits each
line into a command and its arguments and checks the argument count for that command. It then
converts the numeric arguments and calls the storage library (the `UG_*` functions). Open file and
directory handles are kept in two tables of 1024 descriptor slots. The project also models
`shift_args` from `ug-tools/common.cpp`, which removes one entry of `argv` in place.

Modules, one per part of the interpreter:

- `Base` has the errno values and the `Option` / `Result` wrappers.
- `Convert` has `strtoul`/`strtoull` in the C locale, for bases 8 and 10, and the three argument
  converters built on them. It also has decimal and octal numerals, which the round-trip lemmas use.
- `Parser` models the statement parser: C-string truncation, the `strtok_r` tokenizer, and the
  parse specification `ParseLine`. `Parse` is the imperative tokenizing loop, proved equal to
  `ParseLine`.
- `Storage` models the library as a `Library` object. Each call is recorded in `log`, and an oracle
  gives the reply to a call from the calls made before it. Any deterministic library is such an
  oracle, and "no library call was made" means the log did not grow.
- `Descriptors` defines the tables as functions over a `World`, which holds both tables and the
  call log. It covers first-fit insertion, close, lookup and teardown.
- `Commands` covers the dispatcher. The commands form a datatype, and `COMMANDS` lists them in
  the order of the `strcmp` chain. Each command has a name and an argument count, and `shell` is
  the one command that takes any count. `Recognize` searches the table for the name on the line,
  the way the chain takes its first matching branch. `Decode` does the count check and the
  argument conversions, which happen before any library call. `Exec` does the library calls and the table changes.
  `Dispatch` composes the two.
- `Driver` covers the `UG_repl_main` loop over a whole script, given as one string. `Loop` is
  the loop for any way of running a line, and the interpreter's way (`Runner`) parses the line
  and dispatches it.
- `Interpreter` defines the class `Repl`, which holds the two descriptor arrays and the library.
  Its methods update the arrays in place. Each method is proved to produce exactly the new
  `World` and status that the matching function above gives.
- `Common` covers `shift_args`.

Behaviour that follows the code rather than the intended design:

- The "literal last argument" of `write` and `setxattr` never happens. The tokenizing loop stops
  early only after `strtok_r` has returned NULL, and that leaves the save pointer at the end of the
  line. So the later `strtok_r(NULL, "")` always returns NULL.
  - `Parser.Parse` proves that the tail it stores is always empty.
  - A value containing a blank becomes several arguments, and the statement fails the count check
    (`Driver.SpacedValueIsSplit`).
  - The only effect of the literal-tail rule is that the argument limit for these two commands
    is 9 instead of 10.
- The script's result is 0 whenever its last line ends in a newline. After that line, `getline`
  reports end of input (`-ENODATA`), and the loop sets the status to 0. The status of the last
  statement becomes the result only when the script ends without a final newline.
- Line 167 overwrites the last character `getline` returned. On a final line without a newline,
  that is a real character: `stat /ab` runs as `stat /a`.
- A number argument is rejected only when its value is 0 and unconverted text remains. So `""`,
  `" 7"`, `"+7"` and `"12x"` are all accepted. A mode is truncated to 32 bits before that zero
  test.
- Several commands check argument counts in unexpected ways, and the model keeps them as written:
  - `listxattr` and `rmdir` require 0 arguments and pass a NULL path.
  - `stat` requires 1 argument but passes `argv[1]`, which is always NULL.
  - `mkdir` requires 4 arguments.
  - `chown` converts its path as a number, so any real path fails. It then converts its second
    argument again for the owner. That conversion has already succeeded inside
    `parse_user_group`, so the model takes the owner from there.
  - `readdir` prints an unrelated variable that is always 0.
  - `create`, `open` and `opendir` return 0 when the library gives back no handle.
  - `listxattr` returns 0 when its second call fails.

## Model

| member | source | states |
|---|---|---|
| `Convert.Strtoul` | ug-tools/syndicate-repl.cpp:347 | the converted value never exceeds 2^64-1 (saturation; a minus sign negates modulo 2^64) |
| `Convert.InRange` | ug-tools/syndicate-repl.cpp:347 | a magnitude within range and without a minus sign is returned unchanged; every result is at most 2^64-1 |
| `Convert.ParseUint64` | ug-tools/syndicate-repl.cpp:343-352 | a successful conversion is a 64-bit value; the only failure is -EINVAL |
| `Convert.ParseMode` | ug-tools/syndicate-repl.cpp:383-392 | a mode is below 2^32 (a `mode_t`); the only failure is -EINVAL |
| `Convert.ParseUserGroup` | ug-tools/syndicate-repl.cpp:358-377 | succeeds exactly when both arguments at `offset` and `offset + 1` exist and convert, and then yields their values; otherwise -EINVAL |
| `Convert.NumeralValue` | ug-tools/syndicate-repl.cpp:347 | the digits of a numeral denote the number it was written from |
| `Convert.DigitsThenText` | ug-tools/syndicate-repl.cpp:347 | `strtoul` converts a digit string followed by a non-digit to the string's value and stops at the non-digit |
| `Convert.DigitRunOfDigits` | ug-tools/syndicate-repl.cpp:347 | `strtoul` reads all of a digit string and stops at the first character that is not a digit |
| `Convert.ParseUint64Numeral` | ug-tools/syndicate-repl.cpp:343-352 | round trip: every 64-bit value written in decimal converts back to itself |
| `Convert.ParseModeNumeral` | ug-tools/syndicate-repl.cpp:383-392 | round trip: every 32-bit mode written in octal converts back to itself |
| `Convert.ParseUint64IgnoresTrailingText` | ug-tools/syndicate-repl.cpp:348-351 | a nonzero number followed by other text ("12x") is accepted with the number's value |
| `Convert.ParseUint64ZeroThenText` | ug-tools/syndicate-repl.cpp:348-351 | zero followed by other text ("0x") is rejected with -EINVAL |
| `Convert.ParseUint64Lenient` | ug-tools/syndicate-repl.cpp:343-352 | the empty argument converts to 0, and a leading blank or plus sign is skipped (" 7" and "+7" give 7) |
| `Convert.ParseUint64NoDigits` | ug-tools/syndicate-repl.cpp:348-351 | text that starts with no blank, sign or digit ("x", "/a") is rejected with -EINVAL |
| `Parser.CString` | ug-tools/syndicate-repl.cpp:167-168 | the line the tokenizer sees is the prefix of the buffer before its first NUL |
| `Parser.TokensAreWords` | ug-tools/syndicate-repl.cpp:182-204 | every token is nonempty and free of blanks and tabs |
| `Parser.Strtok` | ug-tools/syndicate-repl.cpp:182-198 | one `strtok_r` step only moves forward; after NULL the save position is at the end of the text |
| `Parser.StrtokTakesFirstToken` | ug-tools/syndicate-repl.cpp:182-198 | each `strtok_r` step yields exactly the next token of the line, and NULL exactly when no token is left |
| `Parser.TokensSkipDelims` | ug-tools/syndicate-repl.cpp:182 | leading blanks and tabs do not change the tokens |
| `Parser.BlankHasNoTokens` | ug-tools/syndicate-repl.cpp:182-189 | a text of blanks and tabs has no tokens |
| `Parser.Parse` | ug-tools/syndicate-repl.cpp:130-233 | the tokenizing loop yields what `ParseLine` specifies: no statement with 0 for a blank line, -EINVAL for 10 or more arguments (9 or more for write/setxattr), otherwise the first token as command and the rest as arguments, with the literal tail always empty |
| `Parser.TokensFromShift` | ug-tools/syndicate-repl.cpp:182-204 | the tokens after a position do not depend on the text before it |
| `Parser.WordThenTokens` | ug-tools/syndicate-repl.cpp:182-204 | a word followed by a blank or by the end of the line is the first token |
| `Parser.TokensOfWordThenSpaced` | ug-tools/syndicate-repl.cpp:182-204 | words joined by single blanks tokenize back into the same words |
| `Parser.ParseWrittenStatement` | ug-tools/syndicate-repl.cpp:161-218 | round trip: a command and arguments written on one line parse back to the same statement, or to -EINVAL when there are too many arguments; the character ending the line is dropped |
| `Parser.CStringOfPlainText` | ug-tools/syndicate-repl.cpp:167-168 | a line with no NUL in it reaches the tokenizer whole |
| `Parser.LastLineLosesLastCharacter` | ug-tools/syndicate-repl.cpp:167 | a last line `stat /ab` without a newline is parsed as `stat /a` |
| `Parser.SpacedValueParsedAsWords` | ug-tools/syndicate-repl.cpp:193-215 | a setxattr value with a blank in it becomes two arguments |
| `Parser.BlankLineYieldsNothing` | ug-tools/syndicate-repl.cpp:167-189 | a blank or whitespace-only line yields no statement with status 0 |
| `Storage.Library.Perform` | ug-tools/syndicate-repl.cpp:445 | a library call is appended to the record and answered by the oracle from the calls before it |
| `Descriptors.FirstFree` | ug-tools/syndicate-repl.cpp:241-246 | the lowest empty slot is found, and nothing exactly when every slot is occupied |
| `Descriptors.InsertSlot` | ug-tools/syndicate-repl.cpp:239-265 | a handle goes into the lowest empty slot, whose index is returned, and no other slot changes; a full table is unchanged and the result is -ENFILE |
| `Descriptors.Lookup` | ug-tools/syndicate-repl.cpp:317-337 | a handle is found exactly when the index is inside the table and its slot is occupied |
| `Descriptors.CloseDescriptor` | ug-tools/syndicate-repl.cpp:271-311 | an index outside the table or an empty slot gives -EBADF with no call and nothing changed; otherwise the new world is the old one plus exactly one close call, whose status is the result, with the named slot emptied when that status is 0; the other table, every other slot and the files are unchanged |
| `Descriptors.Teardown` | ug-tools/syndicate-repl.cpp:82-120 | after teardown every slot of both tables is empty, even where a close failed; the file handles are closed before the directory handles |
| `Descriptors.CloseCallsExact` | ug-tools/syndicate-repl.cpp:85-117 | teardown makes one close per occupied slot, each for the handle of an occupied slot, and closes every occupied slot's handle |
| `Descriptors.CloseTwice` | ug-tools/syndicate-repl.cpp:271-288 | after a successful close, closing the same descriptor again gives -EBADF with no call |
| `Descriptors.CloseThenInsert` | ug-tools/syndicate-repl.cpp:239-288 | a freed descriptor is reused by the next insertion when all lower slots are occupied (first fit) |
| `Commands.Int32` | ug-tools/syndicate-repl.cpp:505 | a 64-bit descriptor number passed as `int` keeps its value modulo 2^32, in the 32-bit range, and is unchanged when it fits |
| `Commands.Int64` | ug-tools/syndicate-repl.cpp:1029-1036 | a time stored in the signed `time_t` is the value or the value minus 2^64 |
| `Commands.Find` | ug-tools/syndicate-repl.cpp:432-1095 | the command the search over the table finds, from any position on, has exactly the name on the line |
| `Commands.Recognize` | ug-tools/syndicate-repl.cpp:432-1095 | a recognized command has exactly the name on the line; anything else is unknown |
| `Commands.FindFrom` | ug-tools/syndicate-repl.cpp:432-1095 | the search stops at the first table entry with the name, as the `strcmp` chain takes its first matching branch |
| `Commands.NamesDistinct` | ug-tools/syndicate-repl.cpp:432-1095 | no command of the table shares its name with an earlier one |
| `Commands.RecognizeName` | ug-tools/syndicate-repl.cpp:432-1095 | every command is recognized from its own name, so every branch of the chain can be reached |
| `Commands.DecodeArgs` | ug-tools/syndicate-repl.cpp:432-1094 | the branch of a command, given its own argument count, fails only with -EINVAL; only create, open and opendir open a handle and only close and closedir close one |
| `Commands.Decode` | ug-tools/syndicate-repl.cpp:428-1129 | an unknown command, or a known one with a count other than its own, gives -EINVAL; shell takes any count and runs its words, each followed by a blank; only the opening and closing commands open or close a handle |
| `Commands.DecodeKnown` | ug-tools/syndicate-repl.cpp:432-1094 | a known command with its own argument count is decoded by its own branch |
| `Commands.DispatchDecoded` | ug-tools/syndicate-repl.cpp:398-1134 | a statement that decodes is carried out as decoded |
| `Commands.ExecOpen` | ug-tools/syndicate-repl.cpp:541-555 | no handle back gives 0 with no table change; with the table full the new handle is closed again and the result is -ENFILE; otherwise the handle takes the lowest free slot, whose index is printed, and the result is 0 |
| `Commands.ExecRead` | ug-tools/syndicate-repl.cpp:738-764 | a descriptor with no open file gives -EBADF with no call; otherwise a seek and a read are made, a negative read status is the result, and otherwise the count is printed and the result is 0 |
| `Commands.ExecWrite` | ug-tools/syndicate-repl.cpp:1071-1093 | a descriptor with no open file gives -EBADF with no call; otherwise a seek and a write are made and the write's status is the result, printed when not negative |
| `Commands.ExecReaddir` | ug-tools/syndicate-repl.cpp:784-807 | a descriptor with no open directory gives -EBADF with no call; without a listing the call's status is the result; with one, 0 is printed and returned |
| `Commands.ExecOnHandle` | ug-tools/syndicate-repl.cpp:927-938 | sync/ftrunc: -EBADF with no call for a descriptor with no open file, then the size conversion error, then one call whose status is the result |
| `Commands.ExecGetxattr` | ug-tools/syndicate-repl.cpp:568-594 | a negative first length is the result; otherwise a second call with that size is made and its length is the result, printed when not negative |
| `Commands.ExecListxattr` | ug-tools/syndicate-repl.cpp:606-636 | a negative first length is the result, after that one call and with nothing else changed; once the first call succeeds a second call is made with the first length as size, the log gains exactly the two calls, the tables are unchanged, the second length is printed unless it is negative, and the result is 0 even when the second call fails |
| `Commands.Exec` | ug-tools/syndicate-repl.cpp:432-1123 | tables keep their size, calls are only added, and only opening and closing operations change a table; a path operation makes exactly its one call, changes nothing else, prints nothing and returns that call's status; shell makes exactly one `System` call with its command line, and prints and returns its status |
| `Commands.Dispatch` | ug-tools/syndicate-repl.cpp:398-1134 | a statement that fails decoding returns -EINVAL and changes nothing; only create/open/opendir/close/closedir change a table |
| `Commands.WrongArgumentCount` | ug-tools/syndicate-repl.cpp:432-1128 | an unknown command, or a known one with the wrong argument count, gives -EINVAL with no library call and no table change |
| `Commands.ReadBadDescriptor` | ug-tools/syndicate-repl.cpp:738-742 | read on a descriptor with no open file gives -EBADF with no call and no change |
| `Commands.DecodeRead` | ug-tools/syndicate-repl.cpp:715-737 | `read` with three convertible arguments reads at the descriptor (as a 32-bit `int`), offset and length they give |
| `Commands.DecodeWrite` | ug-tools/syndicate-repl.cpp:1046-1070 | `write` with three convertible numbers writes its fourth argument at the descriptor (as a 32-bit `int`), offset and length they give |
| `Commands.WriteBadDescriptor` | ug-tools/syndicate-repl.cpp:1071-1075 | write on a descriptor with no open file gives -EBADF with no call and no change |
| `Commands.ReaddirBadDescriptor` | ug-tools/syndicate-repl.cpp:784-788 | readdir on a descriptor with no open directory gives -EBADF with no call and no change |
| `Commands.SyncBadDescriptor` | ug-tools/syndicate-repl.cpp:927-931 | sync on a descriptor with no open file gives -EBADF with no call and no change |
| `Commands.FtruncBadDescriptor` | ug-tools/syndicate-repl.cpp:976-980 | ftrunc on a descriptor with no open file gives -EBADF with no call, whatever its size argument |
| `Commands.ChownRejectsPath` | ug-tools/syndicate-repl.cpp:476-479 | chown of an absolute path is rejected with -EINVAL before any call |
| `Commands.StatPassesNoPath` | ug-tools/syndicate-repl.cpp:893-901 | stat with its one argument asks the library about a NULL path |
| `Commands.RmdirPassesNoPath` | ug-tools/syndicate-repl.cpp:850-858 | rmdir with no argument removes a NULL path; rmdir with a path is rejected with -EINVAL |
| `Commands.OpeningCommands` | ug-tools/syndicate-repl.cpp:525-713 | create and open store their handle in the file table and opendir in the directory table, as `ExecOpen` says |
| `Commands.CreateDispatched` | ug-tools/syndicate-repl.cpp:525-555 | create with a valid mode opens a file handle with that mode |
| `Commands.OpenDispatched` | ug-tools/syndicate-repl.cpp:656-687 | open with convertible flags opens a file handle with those flags |
| `Commands.OpendirDispatched` | ug-tools/syndicate-repl.cpp:689-713 | opendir opens a directory handle |
| `Commands.PathCallDispatched` | ug-tools/syndicate-repl.cpp:398-1134 | a known command whose branch decodes to a single path call is carried out as exactly that call, whose status is the result |
| `Commands.AccessDispatched` | ug-tools/syndicate-repl.cpp:432-449 | `access` with a convertible mode makes exactly the call `UG_access(path, mode)` and returns its status |
| `Commands.ChmodDispatched` | ug-tools/syndicate-repl.cpp:450-467 | `chmod` with a convertible mode makes exactly the call `UG_chmod(path, mode)` and returns its status |
| `Commands.ChownDispatched` | ug-tools/syndicate-repl.cpp:468-490 | `chown` whose two arguments convert as numbers makes exactly the call `UG_chown(path, owner)` with the second one's value |
| `Commands.MkdirDispatched` | ug-tools/syndicate-repl.cpp:638-655 | `mkdir` with its four arguments and a convertible mode makes exactly the call `UG_mkdir(path, mode)` |
| `Commands.RemovexattrDispatched` | ug-tools/syndicate-repl.cpp:809-827 | `removexattr` makes exactly the call `UG_removexattr(path, name)` and returns its status |
| `Commands.RenameDispatched` | ug-tools/syndicate-repl.cpp:828-846 | `rename` makes exactly the call `UG_rename(old, new)` and returns its status |
| `Commands.SetxattrDispatched` | ug-tools/syndicate-repl.cpp:865-889 | `setxattr` with convertible flags makes exactly the call `UG_setxattr(path, name, value, flags)`, the value being its fourth argument |
| `Commands.TruncDispatched` | ug-tools/syndicate-repl.cpp:941-962 | `trunc` with a convertible size makes exactly the call `UG_truncate(path, size)` and returns its status |
| `Commands.UnlinkDispatched` | ug-tools/syndicate-repl.cpp:995-1012 | `unlink` makes exactly the call `UG_unlink(path)` and returns its status |
| `Commands.UtimeDispatched` | ug-tools/syndicate-repl.cpp:1013-1045 | `utime` with two convertible times makes exactly the call `UG_utime` with them, each as a signed 64-bit value |
| `Commands.ShellDispatched` | ug-tools/syndicate-repl.cpp:1095-1123 | `shell` with any number of words makes exactly one `System` call on its command line, and prints and returns its status |
| `Commands.CommandLine` | ug-tools/syndicate-repl.cpp:1098-1111 | the command line is as long as its words plus one blank per word |
| `Commands.CommandLineConcat` | ug-tools/syndicate-repl.cpp:1098-1111 | the command line of two runs of words is the first's line followed by the second's |
| `Commands.CommandLineWord` | ug-tools/syndicate-repl.cpp:1098-1111 | one word gives that word followed by one blank |
| `Commands.ClosingCommands` | ug-tools/syndicate-repl.cpp:491-524 | close and closedir release the descriptor their argument names, as a 32-bit `int`, in the file or the directory table |
| `Commands.CloseStatementTwice` | ug-tools/syndicate-repl.cpp:491-507 | `close n` twice: the second gives -EBADF with no call when the first succeeded |
| `Driver.LineEnd` | ug-tools/syndicate-repl.cpp:141 | a line runs through the first newline, or to the end of the input |
| `Driver.Step` | ug-tools/syndicate-repl.cpp:1148-1163 | a line without a statement yields the parser's status and changes nothing; otherwise the dispatcher's status and world |
| `Driver.LoopLine` | ug-tools/syndicate-repl.cpp:1146-1166 | for any way of running a line, one pass runs the line at the current position, and the loop stops after it unless it ends with a newline |
| `Driver.LoopShift` | ug-tools/syndicate-repl.cpp:1146-1166 | the loop over the part of a script after some text does not depend on that text |
| `Driver.LoopTerminated` | ug-tools/syndicate-repl.cpp:1146-1157 | whatever its lines do, a script ending with a newline yields 0 |
| `Driver.LoopLastLine` | ug-tools/syndicate-repl.cpp:1146-1169 | whatever its lines do, a last line without a newline runs once after the others, and its status is the result |
| `Driver.RunFromLine` | ug-tools/syndicate-repl.cpp:1146-1166 | one pass parses and dispatches the line at the current position; the script stops after it unless it ends with a newline |
| `Driver.RunFromStep` | ug-tools/syndicate-repl.cpp:1146-1166 | once the line at the current position has been run, the script's result is that line's status if it ends without a newline, and otherwise the run of the rest from the world it left |
| `Driver.TerminatedScriptYieldsZero` | ug-tools/syndicate-repl.cpp:1146-1157 | a script that is empty or ends with a newline always yields 0 |
| `Driver.RunLine` | ug-tools/syndicate-repl.cpp:1146-1166 | lines run in order, each once; a failing line does not stop the script |
| `Driver.NoStatementLineSkipped` | ug-tools/syndicate-repl.cpp:1149-1159 | a line that yields no statement leaves the script's outcome as if it were absent |
| `Driver.BlankLineSkipped` | ug-tools/syndicate-repl.cpp:1149-1159 | a blank line is never dispatched and changes nothing |
| `Driver.UnterminatedLastLine` | ug-tools/syndicate-repl.cpp:1146-1169 | a last line without a newline gives the script its status and final world |
| `Driver.SpacedValueIsSplit` | ug-tools/syndicate-repl.cpp:193-215 | `setxattr /f k 0 a b` fails with -EINVAL and changes nothing |
| `Driver.FiveArgumentSetxattr` | ug-tools/syndicate-repl.cpp:865-870 | setxattr with five arguments fails the count check with -EINVAL and changes nothing |
| `Interpreter.Repl.constructor` | ug-tools/syndicate-repl.cpp:71-79 | a new interpreter has two separate empty tables of 1024 slots |
| `Interpreter.Repl.Insert` | ug-tools/syndicate-repl.cpp:239-265 | the first-fit loop over the array does what `Descriptors.Insert` specifies |
| `Interpreter.Repl.Close` | ug-tools/syndicate-repl.cpp:271-311 | closing on the array does what `Descriptors.CloseDescriptor` specifies |
| `Interpreter.Repl.Lookup` | ug-tools/syndicate-repl.cpp:317-337 | a handle is found exactly when the index is in range and the slot is occupied |
| `Interpreter.Repl.Release` | ug-tools/syndicate-repl.cpp:85-100 | the loop over one table closes each occupied slot's handle in order and empties every slot |
| `Interpreter.Repl.Free` | ug-tools/syndicate-repl.cpp:82-120 | teardown on the arrays does what `Descriptors.Teardown` specifies |
| `Interpreter.Repl.ExecuteOpen` | ug-tools/syndicate-repl.cpp:541-555 | create/open/opendir after decoding do what `Commands.ExecOpen` specifies |
| `Interpreter.Repl.ExecuteRead` | ug-tools/syndicate-repl.cpp:738-764 | read does what `Commands.ExecRead` specifies |
| `Interpreter.Repl.ExecuteWrite` | ug-tools/syndicate-repl.cpp:1071-1093 | write does what `Commands.ExecWrite` specifies |
| `Interpreter.Repl.ExecuteReaddir` | ug-tools/syndicate-repl.cpp:784-807 | readdir does what `Commands.ExecReaddir` specifies |
| `Interpreter.Repl.ExecuteOnHandle` | ug-tools/syndicate-repl.cpp:927-993 | sync and ftrunc do what `Commands.ExecOnHandle` specifies |
| `Interpreter.Repl.ExecuteGetxattr` | ug-tools/syndicate-repl.cpp:568-594 | getxattr does what `Commands.ExecGetxattr` specifies |
| `Interpreter.Repl.ExecuteListxattr` | ug-tools/syndicate-repl.cpp:606-636 | listxattr does what `Commands.ExecListxattr` specifies |
| `Interpreter.Repl.Execute` | ug-tools/syndicate-repl.cpp:432-1123 | a decoded statement does what `Commands.Exec` specifies |
| `Interpreter.Repl.Dispatch` | ug-tools/syndicate-repl.cpp:398-1134 | dispatching on the arrays does what `Commands.Dispatch` specifies |
| `Interpreter.Repl.Step` | ug-tools/syndicate-repl.cpp:1148-1163 | one pass of the loop does what `Driver.Step` specifies |
| `Interpreter.Repl.RunLineAt` | ug-tools/syndicate-repl.cpp:1146-1163 | one pass of the loop on the arrays moves the script on as `Driver.RunFrom` says, and stops it exactly at a line without a newline |
| `Interpreter.Repl.Run` | ug-tools/syndicate-repl.cpp:1141-1170 | the loop over the script does what `Driver.Run` specifies |
| `Common.RemoveAt` | ug-tools/common.cpp:40-42 | entries before `k` stay in place, later ones move down one place, and the length drops by one |
| `Common.RemoveAtKeepsTheRest` | ug-tools/common.cpp:40-42 | the removed entry and the remaining ones together are the original entries |
| `Common.ShiftArgs` | ug-tools/common.cpp:38-46 | returns `argc - 1`; the first `argc` entries become the old ones without entry `index`, followed by NULL; entries below `index` and from `argc` on are unchanged; `argv[argc-1]` is NULL |

## Left out

- Reading the script: `getline` is modelled on a string holding the whole input. Stream faults are
  not modelled. These are the `ferror` path that returns -EBADF and calls `clearerr`, and the
  `errno` path.
- Allocation failures (-ENOMEM) are not modelled. These are the statement, line and payload
  buffers, `getxattr`/`listxattr` values, the `read` buffer and the `shell` command line. A `read`
  length of 2^64-1, where `len + 1` wraps to a zero-size buffer, is one of these cases.
- The `stmt->cmd == NULL` check at the start of dispatch is unreachable, because the parser never
  yields a statement without a command.
- Output is recorded only as the first number a statement prints. Not modelled:
  - the bytes read, the attribute value and the stat line;
  - the `listxattr` name walk, which steps by the length of the first name each time;
  - the `readdir` entry lines;
  - all `SG_debug`/`SG_error` logging.
- `shell` is modelled as one opaque `System` call on the library with the built command line. The
  process it runs is not modelled. With no argument the command buffer has size 0, and that case
  is modelled as running an empty command line.
- `write` hands the library `len` bytes starting at the data argument, even when `len` exceeds the
  argument's length. The model passes the argument and `len` to the library and does not model the
  over-read.
- `ExecGetxattr`, `ExecListxattr` and `ExecOnHandle` treat the values the library returns as plain
  integers. Only the lengths stored into the `int` status are narrowed, with `Int32`. The
  library's own parameter types (`off_t`, flag widths) are not part of this model. A storage call
  returns an `int`, which the model treats as an unbounded integer.
- `Storage.Library.Perform`: what each `UG_*` call does to the stored files is not modelled. The
  library is an oracle over the history of calls, because its code is not part of this model.
- `UG_seek`'s status is ignored by the interpreter, and the model records the call and ignores its
  reply the same way.
- `main`, `parse_args`, `usage` and `print_entry` (the `getopt_long` plumbing and printing) are not
  modelled. `shift_args` is modelled on its own, with the `argv` array as an array of optional
  strings.
- `Interpreter.Repl.constructor` always builds tables of 1024 slots, as the program does. The
  functions in `Descriptors` and `Commands` work for tables of any size.
