/** The driver (UG_repl_main): the script is read line by line with `getline`, each line parsed
    and, when it holds a statement, dispatched. The whole input is one string; a line is what one
    `getline` call returns, up to and including its newline. */
module Driver {
  import opened Base
  import opened Parser
  import opened Storage
  import opened Descriptors
  import opened Commands

  /** Where the line starting at `pos` ends: just past its first newline, or at the end of the
      input. */
  function LineEnd(input: string, pos: nat): (e: nat)
    requires pos < |input|
    ensures pos < e <= |input|
    ensures forall i :: pos <= i < e - 1 ==> input[i] != '\n'
    ensures input[e - 1] == '\n' || e == |input|
    decreases |input| - pos
  {
    if input[pos] == '\n' || pos + 1 == |input| then pos + 1 else LineEnd(input, pos + 1)
  }

  /** One line: the parser's status when it yields no statement, the dispatcher's otherwise. */
  function Step(w: World, answer: Oracle, line: string): (r: (World, int))
    requires line != []
    ensures ParseLine(line).NoStatement? ==> r == (w, ParseLine(line).rc)
    ensures ParseLine(line).Statement? ==>
      var (v, out) := Dispatch(w, answer, ParseLine(line).stmt);
      r == (v, out.rc)
  {
    match ParseLine(line) {
      case NoStatement(rc) => (w, rc)
      case Statement(stmt) =>
        var (v, out) := Dispatch(w, answer, stmt);
        (v, out.rc)
    }
  }

  /** What running one line does: the world after it and the line's status. `getline` never
      returns an empty line, and a runner need not accept one. */
  type LineRunner = (World, string) --> (World, int)

  ghost predicate RunsLines(run: LineRunner) {
    forall v: World, line: string :: line != [] ==> run.requires(v, line)
  }

  /** The loop of UG_repl_main from position `pos` on, with `run` running each line. The loop runs
      while the stream is not at end of file: a line that ends without a newline reaches the end
      of the stream, so its status is the result; after a line that ends with one, the next
      `getline` finds nothing (-ENODATA) and the result is 0. */
  function Loop(run: LineRunner, w: World, input: string, pos: nat): (World, int)
    requires RunsLines(run) && pos <= |input|
    decreases |input| - pos
  {
    if pos == |input| then (w, 0)
    else
      var e := LineEnd(input, pos);
      var (v, rc) := run(w, input[pos..e]);
      if input[e - 1] != '\n' then (v, rc) else Loop(run, v, input, e)
  }

  /** The interpreter's way of running a line. */
  function Runner(answer: Oracle): (run: LineRunner)
    ensures RunsLines(run)
  {
    (v: World, line: string) requires line != [] => Step(v, answer, line)
  }

  /** The script from position `pos` on. */
  function RunFrom(w: World, answer: Oracle, input: string, pos: nat): (World, int)
    requires pos <= |input|
  {
    Loop(Runner(answer), w, input, pos)
  }

  /** The whole script: the final world and the status UG_repl_main returns. */
  function Run(w: World, answer: Oracle, input: string): (World, int) {
    RunFrom(w, answer, input, 0)
  }

  predicate Terminated(s: string) {
    s == [] || s[|s| - 1] == '\n'
  }

  // ---------------------------------------------------------------------------------------------
  // Lines of concatenated input

  /** A line of `b` is the same line inside `a + b`. */
  lemma {:induction false} LineEndShift(a: string, b: string, i: nat)
    requires i < |b|
    ensures LineEnd(a + b, |a| + i) == |a| + LineEnd(b, i)
    decreases |b| - i
  {
    assert (a + b)[|a| + i] == b[i];
    if b[i] != '\n' && i + 1 < |b| {
      LineEndShift(a, b, i + 1);
    }
  }

  /** A line of `a` that ends with its newline is the same line inside `a + b`. */
  lemma {:induction false} LineEndExtend(a: string, b: string, pos: nat)
    requires pos < |a| && a[LineEnd(a, pos) - 1] == '\n'
    ensures LineEnd(a + b, pos) == LineEnd(a, pos)
    decreases |a| - pos
  {
    assert (a + b)[pos] == a[pos];
    if a[pos] != '\n' {
      LineEndExtend(a, b, pos + 1);
    }
  }

  /** One pass of the loop: the line at `pos` is run, and the script stops after it unless it
      ends with a newline. */
  lemma LoopLine(run: LineRunner, w: World, input: string, pos: nat)
    requires RunsLines(run) && pos < |input|
    ensures var e := LineEnd(input, pos);
      var r := run(w, input[pos..e]);
      Loop(run, w, input, pos) == if input[e - 1] != '\n' then r else Loop(run, r.0, input, e)
  {
  }

  /** Running the part of `a + b` that lies in `b` is running `b`. */
  lemma {:induction false} LoopShift(run: LineRunner, w: World, a: string, b: string, i: nat)
    requires RunsLines(run) && i <= |b|
    ensures Loop(run, w, a + b, |a| + i) == Loop(run, w, b, i)
    decreases |b| - i
  {
    if i < |b| {
      var e := LineEnd(b, i);
      LineEndShift(a, b, i);
      SliceShift(a, b, i, e);
      assert (a + b)[|a| + e - 1] == b[e - 1];
      var v := run(w, b[i..e]).0;
      LoopShift(run, v, a, b, e);
    }
  }

  /** A script ending with a newline yields 0 from any position on, whatever its lines do. */
  lemma {:induction false} LoopTerminated(run: LineRunner, w: World, input: string, pos: nat)
    requires RunsLines(run) && Terminated(input) && pos <= |input|
    ensures Loop(run, w, input, pos).1 == 0
    decreases |input| - pos
  {
    if pos < |input| {
      var e := LineEnd(input, pos);
      assert input[e - 1] == '\n';
      var v := run(w, input[pos..e]).0;
      LoopTerminated(run, v, input, e);
    }
  }

  /** After the lines of a terminated script, a last line without a newline is run once and its
      status is the result. */
  lemma {:induction false} LoopLastLine(run: LineRunner, w: World, script: string, last: string, pos: nat)
    requires RunsLines(run) && Terminated(script) && pos <= |script|
    requires last != [] && forall i :: 0 <= i < |last| ==> last[i] != '\n'
    ensures Loop(run, w, script + last, pos) == run(Loop(run, w, script, pos).0, last)
    decreases |script| - pos
  {
    var s := script + last;
    if pos == |script| {
      LineEndShift(script, last, 0);
      assert LineEnd(last, 0) == |last|;
      assert s[|script|..|s|] == last;
      assert s[|s| - 1] == last[|last| - 1];
    } else {
      var e := LineEnd(script, pos);
      assert script[e - 1] == '\n';
      LineEndExtend(script, last, pos);
      assert s[pos..e] == script[pos..e];
      assert s[e - 1] == '\n';
      var v := run(w, script[pos..e]).0;
      LoopLastLine(run, v, script, last, e);
    }
  }

  // ---------------------------------------------------------------------------------------------
  // Properties

  /** One pass of the loop of UG_repl_main: the line at `pos` is parsed and dispatched, and the
      script stops after it unless it ends with a newline. */
  lemma RunFromLine(w: World, answer: Oracle, input: string, pos: nat)
    requires pos < |input|
    ensures var e := LineEnd(input, pos);
      var r := Step(w, answer, input[pos..e]);
      RunFrom(w, answer, input, pos) == if input[e - 1] != '\n' then r else RunFrom(r.0, answer, input, e)
  {
    LoopLine(Runner(answer), w, input, pos);
  }

  /** The same pass, once the line's world and status are known. */
  lemma RunFromStep(w: World, answer: Oracle, input: string, pos: nat, v: World, rc: int)
    requires pos < |input| && (v, rc) == Step(w, answer, input[pos..LineEnd(input, pos)])
    ensures input[LineEnd(input, pos) - 1] != '\n' ==> RunFrom(w, answer, input, pos) == (v, rc)
    ensures input[LineEnd(input, pos) - 1] == '\n' ==>
      RunFrom(w, answer, input, pos) == RunFrom(v, answer, input, LineEnd(input, pos))
  {
    RunFromLine(w, answer, input, pos);
  }

  /** A script whose last line ends with a newline (or an empty one) always yields 0. */
  lemma TerminatedScriptYieldsZero(w: World, answer: Oracle, input: string)
    requires Terminated(input)
    ensures Run(w, answer, input).1 == 0
  {
    LoopTerminated(Runner(answer), w, input, 0);
  }

  /** Each whole line is executed once, in order: running a line and then the rest of the script
      is running both. A failing statement does not stop the script. */
  lemma RunLine(w: World, answer: Oracle, line: string, rest: string)
    requires line != [] && line[|line| - 1] == '\n'
    requires forall i :: 0 <= i < |line| - 1 ==> line[i] != '\n'
    ensures Run(w, answer, line + rest) == Run(Step(w, answer, line).0, answer, rest)
  {
    var s := line + rest;
    assert LineEnd(line, 0) == |line|;
    LineEndExtend(line, rest, 0);
    assert s[0..|line|] == line;
    assert s[|line| - 1] == '\n';
    RunFromLine(w, answer, s, 0);
    LoopShift(Runner(answer), Step(w, answer, line).0, line, rest, 0);
  }

  /** A line that yields no statement (blank, or with too many arguments) changes nothing: the
      script goes on as if the line were not there. */
  lemma NoStatementLineSkipped(w: World, answer: Oracle, line: string, rest: string)
    requires line != [] && line[|line| - 1] == '\n'
    requires forall i :: 0 <= i < |line| - 1 ==> line[i] != '\n'
    requires ParseLine(line).NoStatement?
    ensures Run(w, answer, line + rest) == Run(w, answer, rest)
  {
    RunLine(w, answer, line, rest);
  }

  /** In particular a blank line is never dispatched. */
  lemma BlankLineSkipped(w: World, answer: Oracle, blanks: string, rest: string)
    requires forall i :: 0 <= i < |blanks| ==> IsDelim(blanks[i])
    ensures Run(w, answer, blanks + "\n" + rest) == Run(w, answer, rest)
  {
    var line := blanks + "\n";
    assert line + rest == blanks + "\n" + rest;
    BlankLineYieldsNothing(line);
    NoStatementLineSkipped(w, answer, line, rest);
  }

  /** A last line without a newline gives the script its result: the status of that line, run on
      the world the lines before it leave behind. */
  lemma UnterminatedLastLine(w: World, answer: Oracle, script: string, last: string)
    requires Terminated(script)
    requires last != [] && forall i :: 0 <= i < |last| ==> last[i] != '\n'
    ensures Run(w, answer, script + last) == Step(Run(w, answer, script).0, answer, last)
  {
    LoopLastLine(Runner(answer), w, script, last, 0);
  }

  /** write and setxattr do not keep a value with blanks in one piece: every word is an argument
      of its own, so the count is wrong and the line fails with -EINVAL, with no call made. */
  lemma SpacedValueIsSplit(w: World, answer: Oracle)
    ensures Step(w, answer, "setxattr /f k 0 a b\n") == (w, -EINVAL)
  {
    SpacedValueParsedAsWords();
    FiveArgumentSetxattr(w, answer);
  }

  /** setxattr with five arguments has the wrong count. */
  lemma FiveArgumentSetxattr(w: World, answer: Oracle)
    ensures Dispatch(w, answer, Stmt("setxattr", ["/f", "k", "0", "a", "b"], None)) == (w, Outcome(-EINVAL, None))
  {
    RecognizeName(CmdSetxattr);
    WrongArgumentCount(w, answer, Stmt("setxattr", ["/f", "k", "0", "a", "b"], None));
  }
}
