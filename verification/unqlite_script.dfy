/** The multi-line script runner of the Unqlite driver, specified on values: how
    the text is cut into command lines, and what running the lines in order does
    to the store and to the result tree. */
module UnqliteScript {
  import opened Common
  import opened Text
  import opened Values
  import opened UnqliteStore

  // ---------------------------------------------------------------- cutting the text into lines

  /** The command lines of a script: the text is cut at every '\n' that is not
      its last character; the last line runs to the end of the text, a final
      '\n' included. */
  function Lines(t: string): (ls: seq<string>)
    requires |t| > 0
    ensures |ls| > 0
    decreases |t|
  {
    var i := IndexOfChar(t, '\n');
    if i < |t| - 1 then [t[..i]] + Lines(t[i + 1..]) else [t]
  }

  function JoinLines(ls: seq<string>): string
    requires |ls| > 0
  {
    if |ls| == 1 then ls[0] else ls[0] + "\n" + JoinLines(ls[1..])
  }

  /** Joining the lines with '\n' gives the script back, and no line but the
      last contains a '\n'. */
  lemma {:induction false} LinesRoundTrip(t: string)
    requires |t| > 0
    ensures JoinLines(Lines(t)) == t
    ensures forall k :: 0 <= k < |Lines(t)| - 1 ==> '\n' !in Lines(t)[k]
    decreases |t|
  {
    var i := IndexOfChar(t, '\n');
    IndexOfCharFirst(t, '\n');
    var ls := Lines(t);
    if i < |t| - 1 {
      var rest := t[i + 1..];
      LinesRoundTrip(rest);
      var rs := Lines(rest);
      assert ls == [t[..i]] + rs;
      assert JoinLines(ls) == t[..i] + "\n" + JoinLines(rs) by {
        assert ls[1..] == rs;
      }
      assert t == t[..i] + "\n" + rest;
      forall k | 0 <= k < |ls| - 1
        ensures '\n' !in ls[k]
      {
        if k == 0 {
          assert forall j :: 0 <= j < i ==> t[..i][j] == t[j];
        } else {
          assert ls[k] == rs[k - 1];
        }
      }
    } else {
      assert ls == [t];
    }
  }

  /** The loop of the runner reaches the end of a line at position `n`. */
  predicate IsLineEnd(t: string, n: nat)
    requires n < |t|
  {
    t[n] == '\n' || n == |t| - 1
  }

  /** The number of line ends strictly before position `p`. */
  function CountEnds(t: string, p: nat): nat
    requires p <= |t|
  {
    if p == 0 then 0 else CountEnds(t, p - 1) + (if IsLineEnd(t, p - 1) then 1 else 0)
  }

  lemma {:induction false} CountEndsNone(t: string, q: nat)
    requires q <= |t| && forall j :: 0 <= j < q ==> !IsLineEnd(t, j)
    ensures CountEnds(t, q) == 0
  {
    if q > 0 {
      CountEndsNone(t, q - 1);
    }
  }

  lemma {:induction false} CountEndsShift(t: string, m: nat, p: nat)
    requires m <= p <= |t| && m < |t|
    ensures CountEnds(t, p) == CountEnds(t, m) + CountEnds(t[m..], p - m)
  {
    if p > m {
      CountEndsShift(t, m, p - 1);
      assert IsLineEnd(t[m..], p - 1 - m) == IsLineEnd(t, p - 1);
    }
  }

  lemma {:induction false} CountEndsMonotone(t: string, p: nat, q: nat)
    requires p <= q <= |t|
    ensures CountEnds(t, p) <= CountEnds(t, q)
    decreases q - p
  {
    if p < q {
      CountEndsMonotone(t, p, q - 1);
    }
  }

  /** Every line of the script ends at exactly one line end of the text. */
  lemma {:induction false} CountEndsAll(t: string)
    requires |t| > 0
    ensures CountEnds(t, |t|) == |Lines(t)|
    decreases |t|
  {
    var i := IndexOfChar(t, '\n');
    IndexOfCharFirst(t, '\n');
    if i < |t| - 1 {
      var rest := t[i + 1..];
      CountEndsShift(t, i + 1, |t|);
      CountEndsNone(t, i);
      CountEndsAll(rest);
    } else {
      CountEndsNone(t, |t| - 1);
    }
  }

  /** The line that ends at `n` and starts at `offset`, as the runner copies it. */
  function Segment(t: string, offset: nat, n: nat): string
    requires offset <= n < |t|
  {
    if n == |t| - 1 then t[offset..] else t[offset..n]
  }

  /** One step of the runner: the line that ends at `n` is the first line of
      what is left of the text. */
  lemma LinesStep(t: string, offset: nat, n: nat)
    requires offset <= n < |t|
    requires forall j :: offset <= j < n ==> t[j] != '\n'
    requires IsLineEnd(t, n)
    ensures Lines(t[offset..]) == [Segment(t, offset, n)] + (if n == |t| - 1 then [] else Lines(t[n + 1..]))
  {
    var u := t[offset..];
    var i := IndexOfChar(u, '\n');
    IndexOfCharFirst(u, '\n');
    assert forall j :: 0 <= j < n - offset ==> u[j] == t[offset + j];
    if n == |t| - 1 {
      assert i >= |u| - 1;
      assert Lines(u) == [u];
    } else {
      assert u[n - offset] == '\n';
      IndexOfCharAt(u, '\n', n - offset);
      assert u[..i] == t[offset..n];
      assert u[i + 1..] == t[n + 1..];
      assert Lines(u) == [u[..i]] + Lines(u[i + 1..]);
    }
  }

  /** Where the character walk of the runner stands: at position `n`, with the
      line being read starting at `offset`; the lines not yet reached are those
      of the text from `offset` on. */
  ghost predicate LinePos(text: string, n: nat, offset: nat)
  {
    && offset <= n <= |text|
    && (forall j :: offset <= j < n ==> text[j] != '\n')
    && (n < |text| ==> CountEnds(text, n) < |Lines(text)| && Lines(text)[CountEnds(text, n)..] == Lines(text[offset..]))
  }

  lemma LinePosStart(text: string)
    requires |text| > 0
    ensures LinePos(text, 0, 0)
  {
    assert text[0..] == text;
  }

  /** Moving past a character that ends no line. */
  lemma LinePosNext(text: string, n: nat, offset: nat)
    requires LinePos(text, n, offset) && n < |text| && !IsLineEnd(text, n)
    ensures LinePos(text, n + 1, offset)
    ensures CountEnds(text, n + 1) == CountEnds(text, n)
    ensures LinesBefore(text, n + 1) == LinesBefore(text, n)
  {
  }

  /** Moving past a line end: the line read is the next line of the script, and
      the walk goes on at the start of the following one. */
  lemma LinePosLineEnd(text: string, n: nat, offset: nat)
    requires LinePos(text, n, offset) && n < |text| && IsLineEnd(text, n)
    ensures LinePos(text, n + 1, n + 1)
    ensures CountEnds(text, n + 1) == CountEnds(text, n) + 1
    ensures Lines(text)[CountEnds(text, n)] == Segment(text, offset, n)
  {
    var k := CountEnds(text, n);
    var ls := Lines(text);
    LinesStep(text, offset, n);
    assert ls[k] == ls[k..][0];
    if n + 1 < |text| {
      assert ls[k + 1..] == ls[k..][1..];
    }
  }

  // ---------------------------------------------------------------- running the lines

  /** The result of running some lines: the store afterwards, one command node
      per line run, and the error that stopped the run if any. */
  datatype RunOutcome = RunOutcome(db: Store, commands: seq<CommandNode>, err: Option<Error>)

  /** The native outcome for the line with index `i`; lines beyond the oracle succeed. */
  function NativeAt(natives: seq<Native>, i: nat): Native
  {
    if i < |natives| then natives[i] else NativeOk
  }

  /** How a command line is executed: the store before, the normalised line and
      the index of the line give the outcome of `execute`. */
  type Exec = (Store, string, nat) -> Outcome

  /** The executor of the Unqlite driver: `execute_impl` on the words of the line,
      with the native outcome the oracle gives for that line. */
  function UnqliteExec(connected: bool, natives: seq<Native>, statsText: string): Exec
  {
    (db: Store, line: string, i: nat) => Execute(connected, db, Argv(line), NativeAt(natives, i), statsText)
  }

  /** An executor appends a child exactly when it succeeds. */
  ghost predicate OneChildOnSuccess(exec: Exec)
  {
    forall db, line, i :: exec(db, line, i).err.None? <==> exec(db, line, i).child.Some?
  }

  lemma UnqliteExecOneChild(connected: bool, natives: seq<Native>, statsText: string)
    ensures OneChildOnSuccess(UnqliteExec(connected, natives, statsText))
  {
    forall db, line, i {
      ExecuteFacts(connected, db, Argv(line), NativeAt(natives, i), statsText);
    }
  }

  /** Run `lines` in order, the first having index `first`; stop at the first
      line that fails. Each line becomes a command node holding the normalised
      line (`stable`) and the children its execution appended. */
  function RunLines(exec: Exec, db: Store, lines: seq<string>, first: nat, stable: string -> string): (r: RunOutcome)
    ensures |r.commands| <= |lines|
    ensures r.err.None? ==> |r.commands| == |lines|
    ensures r.err.Some? ==> |r.commands| > 0
    decreases |lines|
  {
    if lines == [] then RunOutcome(db, [], None)
    else
      var line := stable(lines[0]);
      var o := exec(db, line, first);
      var node := CommandNode(line, ChildList(o.child));
      if o.err.Some? then RunOutcome(o.db, [node], o.err)
      else
        var rest := RunLines(exec, o.db, lines[1..], first + 1, stable);
        RunOutcome(rest.db, [node] + rest.commands, rest.err)
  }

  /** With an executor that appends a child exactly when it succeeds, every
      line that ran without error left one child, and a failed line none. */
  lemma {:induction false} RunLinesChildren(exec: Exec, db: Store, lines: seq<string>, first: nat,
                                           stable: string -> string, i: nat)
    requires OneChildOnSuccess(exec)
    requires i < |RunLines(exec, db, lines, first, stable).commands|
    ensures var r := RunLines(exec, db, lines, first, stable);
      |r.commands[i].children| == if r.err.Some? && i == |r.commands| - 1 then 0 else 1
    decreases |lines|
  {
    var o := exec(db, stable(lines[0]), first);
    if o.err.None? && i > 0 {
      RunLinesChildren(exec, o.db, lines[1..], first + 1, stable, i - 1);
    }
  }

  /** The node of the `i`-th line run holds that line, normalised. */
  lemma {:induction false} RunLinesTexts(exec: Exec, db: Store, lines: seq<string>, first: nat,
                                        stable: string -> string, i: nat)
    requires i < |RunLines(exec, db, lines, first, stable).commands|
    ensures RunLines(exec, db, lines, first, stable).commands[i].text == stable(lines[i])
    decreases |lines|
  {
    var o := exec(db, stable(lines[0]), first);
    if o.err.None? && i > 0 {
      RunLinesTexts(exec, o.db, lines[1..], first + 1, stable, i - 1);
    }
  }

  /** Running `a + b` is running `a` and, unless `a` failed, then `b` from where
      `a` left the store. */
  lemma {:induction false} RunLinesAppend(exec: Exec, db: Store, a: seq<string>, b: seq<string>, first: nat,
                                         stable: string -> string)
    ensures var ra := RunLines(exec, db, a, first, stable);
      RunLines(exec, db, a + b, first, stable) ==
        if ra.err.Some? then ra
        else
          var rb := RunLines(exec, ra.db, b, first + |a|, stable);
          RunOutcome(rb.db, ra.commands + rb.commands, rb.err)
    decreases |a|
  {
    if a == [] {
      assert a + b == b;
    } else {
      var line := stable(a[0]);
      var o := exec(db, line, first);
      var node := CommandNode(line, ChildList(o.child));
      assert (a + b)[0] == a[0];
      assert (a + b)[1..] == a[1..] + b;
      if o.err.None? {
        var ra1 := RunLines(exec, o.db, a[1..], first + 1, stable);
        RunLinesAppend(exec, o.db, a[1..], b, first + 1, stable);
        if ra1.err.None? {
          var rb := RunLines(exec, ra1.db, b, first + |a|, stable);
          assert [node] + (ra1.commands + rb.commands) == ([node] + ra1.commands) + rb.commands;
        }
      }
    }
  }

  /** Once a run has failed, giving it more lines changes nothing. */
  lemma RunLinesStopped(exec: Exec, db: Store, lines: seq<string>, j: nat, k: nat, stable: string -> string)
    requires j <= k <= |lines|
    requires RunLines(exec, db, lines[..j], 0, stable).err.Some?
    ensures RunLines(exec, db, lines[..k], 0, stable) == RunLines(exec, db, lines[..j], 0, stable)
  {
    RunLinesAppend(exec, db, lines[..j], lines[j..k], 0, stable);
    assert lines[..j] + lines[j..k] == lines[..k];
  }

  // ---------------------------------------------------------------- the whole script

  function FlagAt(flags: seq<bool>, n: nat): bool
  {
    n < |flags| && flags[n]
  }

  /** The first position from `n` on, below `len`, at which the interrupt flag
      is seen; `len` when there is none. */
  function FirstInterrupt(flags: seq<bool>, n: nat, len: nat): (p: nat)
    requires n <= len
    ensures n <= p <= len
    ensures p < len ==> FlagAt(flags, p)
    ensures forall j :: n <= j < p ==> !FlagAt(flags, j)
    decreases len - n
  {
    if n == len then len else if FlagAt(flags, n) then n else FirstInterrupt(flags, n + 1, len)
  }

  /** The interrupt flag is seen at no position before `n`. */
  predicate NoInterruptBefore(flags: seq<bool>, n: nat)
  {
    n == 0 || (NoInterruptBefore(flags, n - 1) && !FlagAt(flags, n - 1))
  }

  lemma {:induction false} NoInterruptBeforeAll(flags: seq<bool>, n: nat)
    requires NoInterruptBefore(flags, n)
    ensures forall j :: 0 <= j < n ==> !FlagAt(flags, j)
  {
    if n > 0 {
      NoInterruptBeforeAll(flags, n - 1);
    }
  }

  const InterruptedError: Error := Error("Interrupted exec.", EInterrupted)

  /** The lines of `text` that end before position `p`. */
  function LinesBefore(text: string, p: nat): (ls: seq<string>)
    requires 0 < |text| && p <= |text|
    ensures |ls| == CountEnds(text, p) <= |Lines(text)|
    ensures ls == Lines(text)[..|ls|]
  {
    CountEndsMonotone(text, p, |text|);
    CountEndsAll(text);
    Lines(text)[..CountEnds(text, p)]
  }

  /** What a non-empty script does when the interrupt flag is first seen at
      position `p` (or never): the lines that end before `p` run in order until
      one fails; if none failed and the flag was seen, the error is
      `InterruptedError`. */
  function ScriptOutcome(exec: Exec, db: Store, text: string, flags: seq<bool>, stable: string -> string): RunOutcome
    requires |text| > 0
  {
    var p := FirstInterrupt(flags, 0, |text|);
    var o := RunLines(exec, db, LinesBefore(text, p), 0, stable);
    if o.err.None? && p < |text| then RunOutcome(o.db, o.commands, Some(InterruptedError)) else o
  }

  /** Running one more line after a run that has not failed. */
  lemma RunLinesNext(exec: Exec, db: Store, ls: seq<string>, k: nat, stable: string -> string)
    requires k < |ls| && RunLines(exec, db, ls[..k], 0, stable).err.None?
    ensures var r := RunLines(exec, db, ls[..k], 0, stable);
      var o := exec(r.db, stable(ls[k]), k);
      RunLines(exec, db, ls[..k + 1], 0, stable)
        == RunOutcome(o.db, r.commands + [CommandNode(stable(ls[k]), ChildList(o.child))], o.err)
  {
    RunLinesAppend(exec, db, ls[..k], [ls[k]], 0, stable);
    assert ls[..k] + [ls[k]] == ls[..k + 1];
  }

  /** The runner's step at a line end: the lines run so far grow by the line
      that ends at `n`, executed on the store the earlier lines left. */
  lemma RunStep(exec: Exec, db: Store, text: string, stable: string -> string, n: nat, offset: nat)
    requires LinePos(text, n, offset) && n < |text| && IsLineEnd(text, n)
    requires RunLines(exec, db, LinesBefore(text, n), 0, stable).err.None?
    ensures LinePos(text, n + 1, n + 1)
    ensures var r := RunLines(exec, db, LinesBefore(text, n), 0, stable);
      var line := stable(Segment(text, offset, n));
      var o := exec(r.db, line, |r.commands|);
      RunLines(exec, db, LinesBefore(text, n + 1), 0, stable)
        == RunOutcome(o.db, r.commands + [CommandNode(line, ChildList(o.child))], o.err)
  {
    LinePosLineEnd(text, n, offset);
    var k := CountEnds(text, n);
    CountEndsMonotone(text, n + 1, |text|);
    CountEndsAll(text);
    var ls := Lines(text);
    assert LinesBefore(text, n) == ls[..k];
    assert LinesBefore(text, n + 1) == ls[..k + 1];
    RunLinesNext(exec, db, ls, k, stable);
  }

  /** An interrupt seen at `n`, the first position it is seen at, stops the
      script after the lines that end before `n`, with `InterruptedError`. */
  lemma ScriptStopsAtInterrupt(exec: Exec, db: Store, text: string, flags: seq<bool>, stable: string -> string, n: nat)
    requires n < |text| && FlagAt(flags, n) && NoInterruptBefore(flags, n)
    requires RunLines(exec, db, LinesBefore(text, n), 0, stable).err.None?
    ensures var r := RunLines(exec, db, LinesBefore(text, n), 0, stable);
      ScriptOutcome(exec, db, text, flags, stable) == RunOutcome(r.db, r.commands, Some(InterruptedError))
  {
    NoInterruptBeforeAll(flags, n);
    assert FirstInterrupt(flags, 0, |text|) == n;
  }

  /** A line ending at `n` that fails, with no interrupt seen up to `n`, ends
      the script with that line's error. */
  lemma ScriptStopsAtError(exec: Exec, db: Store, text: string, flags: seq<bool>, stable: string -> string, n: nat)
    requires n < |text| && NoInterruptBefore(flags, n + 1)
    requires RunLines(exec, db, LinesBefore(text, n + 1), 0, stable).err.Some?
    ensures ScriptOutcome(exec, db, text, flags, stable) == RunLines(exec, db, LinesBefore(text, n + 1), 0, stable)
  {
    NoInterruptBeforeAll(flags, n + 1);
    var p := FirstInterrupt(flags, 0, |text|);
    assert p > n;
    CountEndsMonotone(text, n + 1, p);
    CountEndsMonotone(text, p, |text|);
    CountEndsAll(text);
    RunLinesStopped(exec, db, Lines(text), CountEnds(text, n + 1), CountEnds(text, p), stable);
  }

  /** Without an interrupt every line runs, until one fails. */
  lemma ScriptRunsToEnd(exec: Exec, db: Store, text: string, flags: seq<bool>, stable: string -> string)
    requires |text| > 0 && NoInterruptBefore(flags, |text|)
    ensures ScriptOutcome(exec, db, text, flags, stable) == RunLines(exec, db, Lines(text), 0, stable)
  {
    NoInterruptBeforeAll(flags, |text|);
    CountEndsAll(text);
    assert FirstInterrupt(flags, 0, |text|) == |text|;
    assert Lines(text)[..|Lines(text)|] == Lines(text);
  }

  // ---------------------------------------------------------------- the character walk

  /** Where the runner's walk over `text` stands at position `pos`: no
      interrupt was seen before `pos`, the lines ending before `done` ran from
      `db` and gave `r`, and `logged` says why the walk `halted`, if it did: an
      interrupt seen at `pos` (`done == pos`), or the failure of the line ending
      at `pos` (`done == pos + 1`). */
  ghost predicate Walk(exec: Exec, db: Store, text: string, flags: seq<bool>, stable: string -> string,
                       pos: nat, done: nat, offset: nat, halted: bool, r: RunOutcome, logged: Option<Error>)
  {
    && 0 < |text| && pos <= |text| && (done == pos || (halted && done == pos + 1))
    && NoInterruptBefore(flags, pos)
    && LinePos(text, done, offset)
    && r == RunLines(exec, db, LinesBefore(text, done), 0, stable)
    && (!halted ==> r.err.None? && logged.None?)
    && (halted && done == pos ==> pos < |text| && FlagAt(flags, pos) && r.err.None? && logged == Some(InterruptedError))
    && (halted && done == pos + 1 ==> pos < |text| && !FlagAt(flags, pos) && r.err.Some? && logged == r.err)
  }

  lemma WalkStart(exec: Exec, db: Store, text: string, flags: seq<bool>, stable: string -> string)
    requires |text| > 0
    ensures Walk(exec, db, text, flags, stable, 0, 0, 0, false, RunLines(exec, db, [], 0, stable), None)
  {
    LinePosStart(text);
    assert LinesBefore(text, 0) == [];
  }

  /** The interrupt flag seen at `pos` halts the walk with `InterruptedError`. */
  lemma WalkInterrupted(exec: Exec, db: Store, text: string, flags: seq<bool>, stable: string -> string,
                        pos: nat, offset: nat, r: RunOutcome)
    requires Walk(exec, db, text, flags, stable, pos, pos, offset, false, r, None)
    requires pos < |text| && FlagAt(flags, pos)
    ensures Walk(exec, db, text, flags, stable, pos, pos, offset, true, r, Some(InterruptedError))
  {
  }

  /** A character that is neither an interrupt nor a line end moves the walk on. */
  lemma WalkPastChar(exec: Exec, db: Store, text: string, flags: seq<bool>, stable: string -> string,
                     pos: nat, offset: nat, r: RunOutcome)
    requires Walk(exec, db, text, flags, stable, pos, pos, offset, false, r, None)
    requires pos < |text| && !FlagAt(flags, pos) && !IsLineEnd(text, pos)
    ensures Walk(exec, db, text, flags, stable, pos + 1, pos + 1, offset, false, r, None)
  {
    LinePosNext(text, pos, offset);
  }

  /** At a line end the line is run: the walk halts on its error, or moves on
      with the next line starting after the line end. */
  lemma WalkPastLineEnd(exec: Exec, db: Store, text: string, flags: seq<bool>, stable: string -> string,
                        pos: nat, offset: nat, r: RunOutcome, r': RunOutcome)
    requires Walk(exec, db, text, flags, stable, pos, pos, offset, false, r, None)
    requires pos < |text| && !FlagAt(flags, pos) && IsLineEnd(text, pos)
    requires r' == RunLines(exec, db, LinesBefore(text, pos + 1), 0, stable)
    ensures r'.err.Some? ==> Walk(exec, db, text, flags, stable, pos, pos + 1, pos + 1, true, r', r'.err)
    ensures r'.err.None? ==> Walk(exec, db, text, flags, stable, pos + 1, pos + 1, pos + 1, false, r', None)
  {
    RunStep(exec, db, text, stable, pos, offset);
  }

  /** Where the walk stops it has computed the outcome of the script: the
      store, the command nodes and the error the handler reports. */
  lemma WalkResult(exec: Exec, db: Store, text: string, flags: seq<bool>, stable: string -> string,
                   pos: nat, done: nat, offset: nat, halted: bool, r: RunOutcome, logged: Option<Error>)
    requires Walk(exec, db, text, flags, stable, pos, done, offset, halted, r, logged)
    requires !halted ==> pos == |text|
    ensures ScriptOutcome(exec, db, text, flags, stable) == RunOutcome(r.db, r.commands, logged)
  {
    if !halted {
      ScriptRunsToEnd(exec, db, text, flags, stable);
      CountEndsAll(text);
      assert LinesBefore(text, pos) == Lines(text);
    } else if done == pos {
      ScriptStopsAtInterrupt(exec, db, text, flags, stable, pos);
    } else {
      ScriptStopsAtError(exec, db, text, flags, stable, pos);
    }
  }
}
