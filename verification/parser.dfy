/** The statement parser (UG_repl_stmt_parse): one line of the script becomes a command name and
    its arguments, split on runs of spaces and tabs. */
module Parser {
  import opened Base

  /** At most this many tokens may follow the command (one fewer for write and setxattr). */
  const ARGC_MAX: nat := 10

  /** A parsed statement. `args` are the tokens after the command (their number is `argc`);
      `tail` is what the parser stores in `argv[argc]` for the literal-tail commands. */
  datatype Stmt = Stmt(cmd: string, args: seq<string>, tail: Option<string>)

  /** What one call of the parser yields: no statement with a status, or a statement. */
  datatype Parsed = NoStatement(rc: int) | Statement(stmt: Stmt)

  predicate IsDelim(c: char) {
    c == ' ' || c == '\t'
  }

  /** A token: nonempty and free of delimiters. */
  predicate IsWord(t: string) {
    t != [] && forall i :: 0 <= i < |t| ==> !IsDelim(t[i])
  }

  /** The text a C string holds: everything before the first NUL. */
  function CString(s: string): (t: string)
    ensures |t| <= |s| && t == s[..|t|]
    ensures forall i :: 0 <= i < |t| ==> t[i] != '\0'
    ensures |t| < |s| ==> s[|t|] == '\0'
  {
    if s == [] || s[0] == '\0' then []
    else
      var t := [s[0]] + CString(s[1..]);
      assert t == s[..|t|] by { assert s == [s[0]] + s[1..]; }
      t
  }

  /** The line the tokenizer sees: `getline`'s chunk with its last character overwritten by NUL. */
  function LineText(raw: string): string
    requires |raw| >= 1
  {
    CString(raw[..|raw| - 1])
  }

  /** Where the run of delimiters starting at position `i` ends. */
  function DelimEnd(text: string, i: nat): (j: nat)
    requires i <= |text|
    ensures i <= j <= |text|
    ensures forall k :: i <= k < j ==> IsDelim(text[k])
    ensures j < |text| ==> !IsDelim(text[j])
    decreases |text| - i
  {
    if i == |text| || !IsDelim(text[i]) then i else DelimEnd(text, i + 1)
  }

  /** Where the run of non-delimiters starting at position `i` ends. */
  function WordEnd(text: string, i: nat): (j: nat)
    requires i <= |text|
    ensures i <= j <= |text|
    ensures forall k :: i <= k < j ==> !IsDelim(text[k])
    ensures j < |text| ==> IsDelim(text[j])
    decreases |text| - i
  {
    if i == |text| || IsDelim(text[i]) then i else WordEnd(text, i + 1)
  }

  /** The maximal runs of non-delimiters of `text` from position `i` on, in order. */
  function TokensFrom(text: string, i: nat): seq<string>
    requires i <= |text|
    decreases |text| - i
  {
    if i == |text| then []
    else if IsDelim(text[i]) then TokensFrom(text, i + 1)
    else
      var j := WordEnd(text, i);
      [text[i..j]] + TokensFrom(text, j)
  }

  /** The tokens of a whole line. */
  function Tokens(s: string): seq<string> {
    TokensFrom(s, 0)
  }

  /** One call `strtok_r(.., " \t", &save)` resumed at `save`: the token, if any, and the new
      save position (past the delimiter that ended the token, or at the end of the text). */
  function Strtok(text: string, save: nat): (r: (Option<string>, nat))
    requires save <= |text|
    ensures save <= r.1 <= |text|
    ensures r.0.None? ==> r.1 == |text|
    ensures r.0.Some? ==> save < r.1
  {
    var start := DelimEnd(text, save);
    if start == |text| then (None, start)
    else
      var end := WordEnd(text, start);
      (Some(text[start..end]), if end == |text| then end else end + 1)
  }

  /** `strtok_r(NULL, "", &save)`: the rest of the text, or NULL when nothing is left. */
  function Remainder(text: string, save: nat): Option<string>
    requires save <= |text|
  {
    if save < |text| then Some(text[save..]) else None
  }

  predicate LiteralTail(cmd: string) {
    cmd == "write" || cmd == "setxattr"
  }

  /** The number of arguments at which the parser gives up (UG_REPL_ARGC_MAX - last_arg_is_literal). */
  function ArgLimit(cmd: string): nat {
    if LiteralTail(cmd) then ARGC_MAX - 1 else ARGC_MAX
  }

  /** What parsing one line yields. */
  function ParseLine(raw: string): Parsed
    requires |raw| >= 1
  {
    var toks := Tokens(LineText(raw));
    if toks == [] then NoStatement(0)
    else if |toks| - 1 >= ArgLimit(toks[0]) then NoStatement(-EINVAL)
    else Statement(Stmt(toks[0], toks[1..], None))
  }

  // ---------------------------------------------------------------------------------------------
  // Facts about the tokenizer

  /** Every token is nonempty and free of delimiters. */
  lemma {:induction false} TokensAreWords(text: string, i: nat)
    requires i <= |text|
    ensures forall k :: 0 <= k < |TokensFrom(text, i)| ==> IsWord(TokensFrom(text, i)[k])
    decreases |text| - i
  {
    if i < |text| {
      if IsDelim(text[i]) {
        TokensAreWords(text, i + 1);
      } else {
        TokensAreWords(text, WordEnd(text, i));
      }
    }
  }

  /** Delimiters between positions `i` and `j` do not change the tokens. */
  lemma {:induction false} TokensSkipDelims(text: string, i: nat, j: nat)
    requires i <= j <= |text|
    requires forall k :: i <= k < j ==> IsDelim(text[k])
    ensures TokensFrom(text, i) == TokensFrom(text, j)
    decreases j - i
  {
    if i < j {
      TokensSkipDelims(text, i + 1, j);
    }
  }

  /** A line of blanks and tabs has no tokens. */
  lemma BlankHasNoTokens(s: string)
    requires forall i :: 0 <= i < |s| ==> IsDelim(s[i])
    ensures Tokens(s) == []
  {
    TokensSkipDelims(s, 0, |s|);
  }

  /** One `strtok_r` call takes off exactly the first of the remaining tokens. */
  lemma StrtokTakesFirstToken(text: string, save: nat)
    requires save <= |text|
    ensures var (tok, next) := Strtok(text, save);
      if tok.None? then TokensFrom(text, save) == []
      else TokensFrom(text, save) == [tok.value] + TokensFrom(text, next)
  {
    var start := DelimEnd(text, save);
    TokensSkipDelims(text, save, start);
    if start < |text| {
      var end := WordEnd(text, start);
      if end < |text| {
        assert TokensFrom(text, end) == TokensFrom(text, end + 1);
      }
    }
  }

  /** The parser never finds a literal tail: the loop only stops early after `strtok_r` has
      returned NULL, which leaves the save position at the end of the text. */
  method Parse(raw: string) returns (p: Parsed)
    requires |raw| >= 1
    ensures p == ParseLine(raw)
  {
    var text := LineText(raw);
    if |text| == 0 {
      return NoStatement(0);
    }
    var (first, save) := Strtok(text, 0);
    StrtokTakesFirstToken(text, 0);
    if first.None? {
      // all whitespace
      return NoStatement(0);
    }
    var cmd := first.value;
    var limit := ArgLimit(cmd);
    var args: seq<string> := [];
    ghost var toks := Tokens(text);
    while |args| < limit
      invariant |args| <= limit
      invariant save <= |text|
      invariant toks == [cmd] + args + TokensFrom(text, save)
    {
      var (arg, next) := Strtok(text, save);
      StrtokTakesFirstToken(text, save);
      if arg.None? {
        save := next;
        assert TokensFrom(text, save) == [];
        break;
      }
      ghost var rest := TokensFrom(text, next);
      assert [cmd] + args + ([arg.value] + rest) == [cmd] + (args + [arg.value]) + rest;
      save := next;
      args := args + [arg.value];
    }
    if |args| == limit {
      // no command has this many arguments
      assert |toks| - 1 >= limit;
      return NoStatement(-EINVAL);
    }
    assert toks == [cmd] + args;
    var tail := None;
    if LiteralTail(cmd) {
      tail := Remainder(text, save);
    }
    p := Statement(Stmt(cmd, args, tail));
  }

  // ---------------------------------------------------------------------------------------------
  // Parsing is the inverse of writing a statement out

  /** The arguments written out, each after one blank. */
  function Spaced(words: seq<string>): string {
    if words == [] then [] else [' '] + words[0] + Spaced(words[1..])
  }

  /** The tokens of a suffix do not depend on the text before it. */
  lemma {:induction false} TokensFromShift(a: string, b: string, i: nat)
    requires i <= |b|
    ensures TokensFrom(a + b, |a| + i) == TokensFrom(b, i)
    decreases |b| - i
  {
    if i < |b| {
      assert (a + b)[|a| + i] == b[i];
      if IsDelim(b[i]) {
        TokensFromShift(a, b, i + 1);
      } else {
        var j := WordEnd(b, i);
        WordEndShift(a, b, i);
        SliceShift(a, b, i, j);
        TokensFromShift(a, b, j);
      }
    }
  }

  lemma {:induction false} WordEndShift(a: string, b: string, i: nat)
    requires i <= |b|
    ensures WordEnd(a + b, |a| + i) == |a| + WordEnd(b, i)
    decreases |b| - i
  {
    if i < |b| {
      assert (a + b)[|a| + i] == b[i];
      if !IsDelim(b[i]) {
        WordEndShift(a, b, i + 1);
      }
    }
  }

  /** A word followed by a delimiter, or by nothing, is read whole. */
  lemma {:induction false} WordEndOfWord(w: string, b: string, i: nat)
    requires IsWord(w) && i <= |w|
    requires b == [] || IsDelim(b[0])
    ensures WordEnd(w + b, i) == |w|
    decreases |w| - i
  {
    if i < |w| {
      assert (w + b)[i] == w[i];
      WordEndOfWord(w, b, i + 1);
    } else if b != [] {
      assert (w + b)[|w|] == b[0];
    }
  }

  lemma {:induction false} TokensOfWordThenSpaced(w: string, rest: seq<string>)
    requires IsWord(w) && forall k :: 0 <= k < |rest| ==> IsWord(rest[k])
    ensures Tokens(w + Spaced(rest)) == [w] + rest
    decreases |rest|
  {
    var t := Spaced(rest);
    if rest == [] {
      WordThenTokens(w, t);
    } else {
      var u := rest[0] + Spaced(rest[1..]);
      assert t == [' '] + u;
      WordThenTokens(w, t);
      assert TokensFrom(t, 0) == TokensFrom(t, 1);
      TokensFromShift([' '], u, 0);
      TokensOfWordThenSpaced(rest[0], rest[1..]);
      assert [rest[0]] + rest[1..] == rest;
    }
  }

  /** A word followed by a delimiter, or by nothing, is the first token. */
  lemma WordThenTokens(w: string, t: string)
    requires IsWord(w) && (t == [] || IsDelim(t[0]))
    ensures Tokens(w + t) == [w] + TokensFrom(t, 0)
  {
    var s := w + t;
    assert s[0] == w[0];
    WordEndOfWord(w, t, 0);
    assert s[0..|w|] == w;
    assert Tokens(s) == [w] + TokensFrom(s, |w|);
    TokensFromShift(w, t, 0);
  }

  predicate PlainText(s: string) {
    forall i :: 0 <= i < |s| ==> s[i] != '\0' && s[i] != '\n'
  }

  /** Writing a command and its arguments on one line and parsing the line gives the statement
      back, unless there are too many arguments. Whatever character ends the line is dropped:
      normally the newline, but on a last line without one, its last character. */
  lemma ParseWrittenStatement(cmd: string, args: seq<string>, end: char)
    requires IsWord(cmd) && forall k :: 0 <= k < |args| ==> IsWord(args[k])
    requires PlainText(cmd + Spaced(args))
    ensures ParseLine(cmd + Spaced(args) + [end]) ==
      if |args| >= ArgLimit(cmd) then NoStatement(-EINVAL) else Statement(Stmt(cmd, args, None))
  {
    var line := cmd + Spaced(args);
    var raw := line + [end];
    assert LineText(raw) == line by {
      assert raw[..|raw| - 1] == line;
      CStringOfPlainText(line);
    }
    var toks := Tokens(line);
    assert toks == [cmd] + args by { TokensOfWordThenSpaced(cmd, args); }
    assert toks[0] == cmd && toks[1..] == args;
  }

  /** Text without a NUL is a C string of its own. */
  lemma {:induction false} CStringOfPlainText(s: string)
    requires PlainText(s)
    ensures CString(s) == s
    decreases |s|
  {
    if s != [] {
      assert s[0] != '\0';
      CStringOfPlainText(s[1..]);
      assert s == [s[0]] + s[1..];
    }
  }

  /** A last line "stat /ab" without a newline is run as `stat /a`. */
  lemma LastLineLosesLastCharacter()
    ensures ParseLine("stat /ab") == Statement(Stmt("stat", ["/a"], None))
  {
    assert Spaced(["/a"]) == " /a" by {
      assert Spaced(["/a"][1..]) == [];
    }
    assert "stat /ab" == "stat" + Spaced(["/a"]) + ['b'];
    ParseWrittenStatement("stat", ["/a"], 'b');
  }

  /** A value with a blank in it is split like everything else: it becomes two arguments. */
  lemma SpacedValueParsedAsWords()
    ensures ParseLine("setxattr /f k 0 a b\n") ==
      Statement(Stmt("setxattr", ["/f", "k", "0", "a", "b"], None))
  {
    var args := ["/f", "k", "0", "a", "b"];
    SpacedValueWritten();
    assert forall k :: 0 <= k < |args| ==> IsWord(args[k]) by {
      assert IsWord("/f") && IsWord("k") && IsWord("0") && IsWord("a") && IsWord("b");
    }
    ParseWrittenStatement("setxattr", args, '\n');
  }

  /** The line above is the command and its five arguments written out. */
  lemma SpacedValueWritten()
    ensures "setxattr /f k 0 a b\n" == "setxattr" + Spaced(["/f", "k", "0", "a", "b"]) + ['\n']
    ensures PlainText("setxattr" + Spaced(["/f", "k", "0", "a", "b"]))
  {
    var args := ["/f", "k", "0", "a", "b"];
    assert Spaced(args) == " /f k 0 a b" by {
      assert Spaced(args[4..]) == " b" by { assert Spaced(args[4..][1..]) == []; }
      assert args[1..][1..][1..][1..] == args[4..];
    }
    assert "setxattr /f k 0 a b\n" == "setxattr" + Spaced(args) + ['\n'];
    assert PlainText("setxattr" + Spaced(args));
  }

  /** A line of blanks and tabs yields no statement and status 0. */
  lemma BlankLineYieldsNothing(raw: string)
    requires |raw| >= 1
    requires forall i :: 0 <= i < |raw| - 1 ==> IsDelim(raw[i])
    ensures ParseLine(raw) == NoStatement(0)
  {
    var text := LineText(raw);
    assert forall i :: 0 <= i < |text| ==> IsDelim(text[i]) by {
      assert text == raw[..|raw| - 1][..|text|];
    }
    BlankHasNoTokens(text);
  }
}
