/** The Unqlite driver: the native handle and the database behind it, the
    connection lifecycle, the cursor scans, the verb dispatcher, and the event
    handlers that run scripts and load the content of the database. */
module Unqlite {
  import opened Common
  import opened Text
  import opened Values
  import opened UnqliteStore
  import opened UnqliteCommands
  import opened UnqliteScript

  /** What `currentDataBaseInfo` reports: the database name, whether it is the
      default one, and its number of keys. */
  datatype DataBaseInfo = DataBaseInfo(name: string, isDefault: bool, size: nat)

  /** The nodes of the result tree hold the command texts and children of `cs`. */
  ghost predicate NodesHold(nodes: seq<FastoObject>, cs: seq<CommandNode>)
    reads nodes
  {
    |nodes| == |cs| &&
    forall i :: 0 <= i < |nodes| ==> nodes[i].text == cs[i].text && nodes[i].children == cs[i].children
  }

  /** The share of a script of `length` characters done at position `n`, in
      percent, as a whole number. */
  function Progress(n: nat, length: nat): (pct: nat)
    requires n <= length && length > 0
    ensures pct <= 100
    ensures n < length ==> pct < 100
  {
    ProgressBounds(n, length);
    (100 * n) / length
  }

  lemma ProgressBounds(n: nat, length: nat)
    requires n <= length && length > 0
    ensures (100 * n) / length <= 100
    ensures n < length ==> (100 * n) / length < 100
  {
    var q := (100 * n) / length;
    assert q * length <= 100 * n;
    assert (q - 100) * length == q * length - 100 * length;
    if n < length {
      assert (q - 100) * length < 0;
      MulBelow(q - 99, length);
    } else {
      assert (q - 100) * length <= 0;
      MulBelow(q - 100, length);
    }
  }

  lemma ProgressMonotone(m: nat, n: nat, length: nat)
    requires m <= n <= length && length > 0
    ensures Progress(m, length) <= Progress(n, length)
  {
    DivMonotone(100 * m, 100 * n, length);
  }

  lemma DivMonotone(a: nat, b: nat, d: nat)
    requires a <= b && d > 0
    ensures a / d <= b / d
  {
    var qa, qb := a / d, b / d;
    assert qa * d <= a;
    assert b < qb * d + d;
    assert (qa - qb) * d == qa * d - qb * d;
    assert (qa - qb) * d < d;
    MulBelow(qa - qb, d);
  }

  lemma MulBelow(x: int, d: int)
    requires d > 0 && x * d < d
    ensures x < 1
  {
    assert (x - 1) * d == x * d - d;
    assert (x - 1) * d < 0;
  }

  /** The progress values notified so far: starting at 0, never decreasing,
      none above `bound` and none reaching 100 before the walk is over. */
  ghost predicate Notified(progress: seq<nat>, bound: nat)
  {
    && |progress| >= 1 && progress[0] == 0
    && (forall i :: 0 <= i < |progress| ==> progress[i] <= bound && progress[i] < 100)
    && (forall i, j :: 0 <= i <= j < |progress| ==> progress[i] <= progress[j])
  }

  lemma NotifiedRaise(progress: seq<nat>, bound: nat, bound': nat)
    requires Notified(progress, bound) && bound <= bound'
    ensures Notified(progress, bound')
  {
  }

  /** Notifying the progress at `n` and moving to `n + 1` keeps every
      notification at or below the progress at `n + 1`. */
  lemma NotifiedStep(progress: seq<nat>, n: nat, length: nat)
    requires n < length && Notified(progress, Progress(n, length))
    ensures Notified(progress + [Progress(n, length)], Progress(n + 1, length))
  {
    NotifiedAppend(progress, Progress(n, length), Progress(n, length));
    ProgressMonotone(n, n + 1, length);
    NotifiedRaise(progress + [Progress(n, length)], Progress(n, length), Progress(n + 1, length));
  }

  lemma NotifiedAppend(progress: seq<nat>, bound: nat, value: nat)
    requires Notified(progress, bound) && bound <= value < 100
    ensures Notified(progress + [value], value)
  {
    var p := progress + [value];
    assert forall i :: 0 <= i < |progress| ==> p[i] == progress[i];
  }

  /** The closing notification of 100 ends a sequence that starts at 0, never
      decreases, and holds 100 only in its last place. */
  lemma NotifiedFinish(progress: seq<nat>, bound: nat)
    requires Notified(progress, bound)
    ensures |progress + [100]| >= 2 && (progress + [100])[0] == 0
    ensures forall i, j :: 0 <= i <= j < |progress| + 1 ==> (progress + [100])[i] <= (progress + [100])[j]
    ensures forall i :: 0 <= i < |progress| ==> (progress + [100])[i] < 100
  {
    var p := progress + [100];
    assert forall i :: 0 <= i < |progress| ==> p[i] == progress[i];
  }

  class UnqliteDriver {
    /** The native handle; `None` is the null handle. */
    var handle: Option<nat>
    /** The database the handle gives access to. */
    var db: Store
    /** The text the server statistics of an `INFO` command render as. */
    const statsText: string

    ghost predicate Valid()
      reads this
    {
      UnqliteStore.Valid(db)
    }

    constructor (db: Store, statsText: string)
      requires UnqliteStore.Valid(db)
      ensures handle == None && this.db == db && this.statsText == statsText
      ensures Valid()
    {
      handle := None;
      this.db := db;
      this.statsText := statsText;
    }

    /** Connected exactly when the handle is not null. */
    function IsConnected(): bool
      reads this
    {
      handle != None
    }

    /** Close the native handle and forget it. */
    method Clear()
      modifies this
      ensures handle == None && db == old(db)
    {
      handle := None;
    }

    /** Open the database unless a handle is already open; `open` is what
        `unqlite_open` does. */
    method Connect(open: OpenResult) returns (err: Option<Error>)
      modifies this
      ensures db == old(db)
      ensures old(handle).Some? ==> handle == old(handle) && err == None
      ensures old(handle).None? && open.Opened? ==> handle == Some(open.handle) && err == None
      ensures old(handle).None? && open.OpenFailed? ==>
                handle == None && err == Some(Fail("Fail open database: " + open.log + "!"))
      ensures err.None? <==> IsConnected()
    {
      if IsConnected() {
        return None;
      }
      Clear();
      match open
      case OpenFailed(log) =>
        err := Some(Fail("Fail open database: " + log + "!"));
      case Opened(h) =>
        handle := Some(h);
        err := None;
    }

    /** Close the handle if one is open; never fails. */
    method Disconnect() returns (err: Option<Error>)
      modifies this
      ensures err == None && handle == None && db == old(db)
    {
      if !IsConnected() {
        return None;
      }
      Clear();
      err := None;
    }

    /** Count the entries with a cursor. The size reported on failure is the
        0 both callers start from. */
    method Dbsize(native: Native) returns (err: Option<Error>, size: nat)
      requires Valid()
      ensures err.Some? <==> NativeFails(handle.Some?, native)
      ensures err.Some? ==> err == Some(Fail("dbsize function error: " + native.errLog)) && size == 0
      ensures err.None? ==> size == |db.vals|
    {
      if NativeFails(handle.Some?, native) {
        return Some(Fail("dbsize function error: " + native.errLog)), 0;
      }
      var cursor := 0;
      var sz := 0;
      while cursor < |db.order|
        invariant 0 <= cursor <= |db.order|
        invariant sz == cursor
      {
        sz := sz + 1;
        cursor := cursor + 1;
      }
      EntryCount(db);
      return None, sz;
    }

    /** Walk the cursor from the first entry, collecting keys strictly between
        `start` and `end`, until the end or until `limit` keys are collected. */
    method Keys(start: string, end: string, limit: nat, native: Native) returns (err: Option<Error>, ret: seq<string>)
      ensures err.Some? <==> NativeFails(handle.Some?, native)
      ensures err.Some? ==> err == Some(Fail("Keys function error: " + native.errLog)) && ret == []
      ensures err.None? ==> ret == KeysSpec(db.order, start, end, limit)
    {
      if NativeFails(handle.Some?, native) {
        return Some(Fail("Keys function error: " + native.errLog)), [];
      }
      var order := db.order;
      ret := [];
      var cursor := 0;
      while cursor < |order| && limit > |ret|
        invariant 0 <= cursor <= |order|
        invariant ret == InRangeKeys(order[..cursor], start, end)
        invariant |ret| <= limit
      {
        var key := order[cursor];
        if Less(start, key) && Less(key, end) {
          ret := ret + [key];
        }
        assert order[..cursor + 1][..cursor] == order[..cursor];
        cursor := cursor + 1;
      }
      InRangeKeysPrefix(order, cursor, start, end);
      if cursor == |order| {
        assert order[..cursor] == order;
      }
      err := None;
    }

    method Get(key: string, native: Native) returns (err: Option<Error>, value: string)
      ensures err.Some? <==> NativeFails(handle.Some?, native) || key !in db.vals
      ensures err.Some? ==> err == Some(Fail("get function error: " + native.errLog))
      ensures err.None? ==> value == db.vals[key]
    {
      if NativeFails(handle.Some?, native) || key !in db.vals {
        return Some(Fail("get function error: " + native.errLog)), "";
      }
      return None, db.vals[key];
    }

    method Put(key: string, value: string, native: Native) returns (err: Option<Error>)
      requires Valid()
      modifies this
      ensures handle == old(handle) && Valid()
      ensures err.Some? <==> NativeFails(handle.Some?, native)
      ensures err.Some? ==> err == Some(Fail("put function error: " + native.errLog)) && db == old(db)
      ensures err.None? ==> db == UnqliteStore.Put(old(db), key, value)
    {
      if NativeFails(handle.Some?, native) {
        return Some(Fail("put function error: " + native.errLog));
      }
      db := UnqliteStore.Put(db, key, value);
      err := None;
    }

    method Del(key: string, native: Native) returns (err: Option<Error>)
      requires Valid()
      modifies this
      ensures handle == old(handle) && Valid()
      ensures err.Some? <==> NativeFails(handle.Some?, native) || key !in old(db).vals
      ensures err.Some? ==> err == Some(Fail("delete function error: " + native.errLog)) && db == old(db)
      ensures err.None? ==> db == Delete(old(db), key)
    {
      if NativeFails(handle.Some?, native) || key !in db.vals {
        return Some(Fail("delete function error: " + native.errLog));
      }
      db := Delete(db, key);
      err := None;
    }

    /** `execute_impl`: dispatch on the verb, ignoring case (see
        `VerbOfSpelling`), check the argument count, make the native call and
        append its one child to `out` on success. */
    method ExecuteImpl(out: FastoObject, argv: seq<string>, native: Native) returns (err: Option<Error>)
      requires |argv| >= 1 && Valid()
      modifies this, out
      ensures handle == old(handle) && Valid()
      ensures var o := Execute(old(handle).Some?, old(db), argv, native, statsText);
        && db == o.db && err == o.err
        && out.children == old(out.children) + ChildList(o.child)
    {
      var verb, argc := argv[0], |argv|;
      match VerbOf(verb)
      case None =>
        err := Some(Fail("Not supported command: " + verb));
      case Some(InfoVerb) =>
        if argc > 2 {
          return Some(Fail("Invalid info input argument"));
        }
        out.AddChildren(StringValue(statsText));
        err := None;
      case Some(GetVerb) =>
        if argc != 2 {
          return Some(Fail("Invalid get input argument"));
        }
        var value;
        err, value := Get(argv[1], native);
        if err.None? {
          out.AddChildren(StringValue(value));
        }
      case Some(DbsizeVerb) =>
        if argc != 1 {
          return Some(Fail("Invalid dbsize input argument"));
        }
        var size;
        err, size := Dbsize(native);
        EntryCount(db);
        if err.None? {
          out.AddChildren(UIntegerValue(size));
        }
      case Some(PutVerb) =>
        if argc != 3 {
          return Some(Fail("Invalid put input argument"));
        }
        err := Put(argv[1], argv[2], native);
        if err.None? {
          out.AddChildren(StringValue("STORED"));
        }
      case Some(DelVerb) =>
        if argc != 2 {
          return Some(Fail("Invalid del input argument"));
        }
        err := Del(argv[1], native);
        if err.None? {
          out.AddChildren(StringValue("DELETED"));
        }
      case Some(KeysVerb) =>
        if argc != 4 {
          return Some(Fail("Invalid keys input argument"));
        }
        var found;
        err, found := Keys(argv[1], argv[2], Uint64Of(Atoll(argv[3])), native);
        if err.None? {
          out.AddChildren(ArrayValue(StringValues(found)));
        }
    }

    /** `currentDataBaseInfo`: database "0", the default one, with the key
        count `dbsize` gives, or 0 when it fails (the error is dropped). */
    method CurrentDataBaseInfo(native: Native) returns (info: DataBaseInfo)
      requires Valid()
      ensures info.name == "0" && info.isDefault
      ensures info.size == if NativeFails(handle.Some?, native) then 0 else |db.vals|
    {
      var err, size := Dbsize(native);
      info := DataBaseInfo("0", true, size);
    }

    /** `handleLoadDatabaseContentEvent`: run `KEYS a z <countKeys>` and turn
        the string items of the array it returns into keys without values. On
        an error no keys are returned. */
    method HandleLoadDatabaseContentEvent(countKeys: nat, native: Native) returns (keys: seq<NDbKValue>, err: Option<Error>)
      requires Valid() && countKeys < 0x1_0000_0000
      modifies this
      ensures handle == old(handle) && db == old(db)
      ensures err.Some? <==> NativeFails(handle.Some?, native)
      ensures err.Some? ==> keys == []
      ensures err.None? ==> keys == KeyEntries(KeysSpec(db.order, "a", "z", countKeys))
    {
      var text := KeysCommand(countKeys);
      KeysCommandRuns(handle.Some?, db, countKeys, native, statsText);
      var root := new FastoObject(text);
      err := ExecuteImpl(root, Argv(text), native);
      keys := [];
      if err.None? {
        var children := root.children;
        if |children| > 0 && children[0].ArrayValue? {
          var items := children[0].items;
          var i := 0;
          while i < |items|
            invariant 0 <= i <= |items|
            invariant keys == StringEntries(items[..i])
          {
            var item := items[i];
            if item.StringValue? {
              keys := keys + [NDbKValue(item.s, None)];
            }
            assert items[..i + 1][..i] == items[..i];
            i := i + 1;
          }
          assert items[..i] == items;
          StringEntriesOfStrings(KeysSpec(db.order, "a", "z", countKeys));
        }
      }
    }

    /** `handleExecuteEvent`: walk the script character by character; at every
        line end copy the line out, normalise it with `stable`, create its node
        and execute it; stop at the first error or when the interrupt flag is
        seen. `interrupts[n]` is the flag as the walk finds it at position `n`;
        `natives[i]` is what the native store does for the `i`-th line. The
        error is the one the handler logs; `progress` is what it notifies. */
    method HandleExecuteEvent(text: string, interrupts: seq<bool>, natives: seq<Native>, stable: string -> string)
      returns (nodes: seq<FastoObject>, logged: Option<Error>, progress: seq<nat>)
      requires Valid()
      modifies this
      ensures handle == old(handle) && Valid()
      ensures text == [] ==> nodes == [] && logged == Some(Fail("Empty command line.")) && db == old(db)
      ensures text != [] ==>
        var o := ScriptOutcome(UnqliteExec(old(handle).Some?, natives, statsText), old(db), text, interrupts, stable);
        db == o.db && logged == o.err && NodesHold(nodes, o.commands)
      ensures |progress| >= 2 && progress[0] == 0 && progress[|progress| - 1] == 100
      ensures forall i, j :: 0 <= i <= j < |progress| ==> progress[i] <= progress[j]
      ensures forall i :: 0 <= i < |progress| - 1 ==> progress[i] < 100
    {
      if text == [] {
        nodes, logged, progress := [], Some(Fail("Empty command line.")), [0, 100];
        return;
      }
      ghost var exec := UnqliteExec(handle.Some?, natives, statsText);
      ghost var db0 := db;
      ghost var n, done, offset, stopped, r;
      nodes, logged, progress, n, done, offset, stopped, r := RunScript(text, interrupts, natives, stable);
      WalkResult(exec, db0, text, interrupts, stable, n, done, offset, stopped, r, logged);
      NotifiedFinish(progress, Progress(n, |text|));
      progress := progress + [100];
    }

    /** The walk at position `pos` as the driver holds it: the pure walk state
        over the driver's own executor, the database and the result nodes it
        left, and the progress notified so far, never past position `pos`. */
    ghost predicate Walked(text: string, interrupts: seq<bool>, natives: seq<Native>, stable: string -> string,
                           db0: Store, pos: nat, done: nat, offset: nat, halted: bool,
                           r: RunOutcome, nodes: seq<FastoObject>, logged: Option<Error>, progress: seq<nat>)
      reads this, nodes
    {
      && Valid()
      && Walk(UnqliteExec(handle.Some?, natives, statsText), db0, text, interrupts, stable, pos, done, offset, halted, r, logged)
      && db == r.db && NodesHold(nodes, r.commands)
      && Notified(progress, Progress(pos, |text|))
    }

    /** The loop of `handleExecuteEvent` over a non-empty script. On return
        the walk has stopped at position `n`: at the end of the text, at an
        interrupt seen at `n`, or after the line ending at `n` failed. */
    method RunScript(text: string, interrupts: seq<bool>, natives: seq<Native>, stable: string -> string)
      returns (nodes: seq<FastoObject>, logged: Option<Error>, progress: seq<nat>,
               ghost n: nat, ghost done: nat, ghost offset: nat, ghost stopped: bool, ghost r: RunOutcome)
      requires Valid() && |text| > 0
      modifies this
      ensures handle == old(handle)
      ensures Walked(text, interrupts, natives, stable, old(db), n, done, offset, stopped, r, nodes, logged, progress)
      ensures !stopped ==> n == |text|
    {
      ghost var db0 := db;
      r := RunLines(UnqliteExec(handle.Some?, natives, statsText), db0, [], 0, stable);
      WalkStart(UnqliteExec(handle.Some?, natives, statsText), db0, text, interrupts, stable);
      done := 0;
      nodes, logged, progress := [], None, [0];
      var off := 0;
      var pos := 0;
      var halted := false;
      while pos < |text| && !halted
        invariant handle == old(handle)
        invariant Walked(text, interrupts, natives, stable, db0, pos, done, off, halted, r, nodes, logged, progress)
        decreases |text| - pos, if halted then 0 else 1
      {
        nodes, logged, progress, pos, done, off, halted, r :=
          WalkStep(text, interrupts, natives, stable, db0, pos, off, r, nodes, progress);
      }
      n, offset, stopped := pos, off, halted;
    }

    /** One iteration of the loop of `handleExecuteEvent` at position `pos`:
        the interrupt check, then either a line end or a plain character. */
    method WalkStep(text: string, interrupts: seq<bool>, natives: seq<Native>, stable: string -> string,
                    ghost db0: Store, pos: nat, offset: nat, ghost r: RunOutcome, nodes: seq<FastoObject>, progress: seq<nat>)
      returns (nodes': seq<FastoObject>, logged': Option<Error>, progress': seq<nat>,
               pos': nat, ghost done': nat, offset': nat, halted': bool, ghost r': RunOutcome)
      requires Walked(text, interrupts, natives, stable, db0, pos, pos, offset, false, r, nodes, None, progress)
      requires pos < |text|
      modifies this
      ensures handle == old(handle)
      ensures Walked(text, interrupts, natives, stable, db0, pos', done', offset', halted', r', nodes', logged', progress')
      ensures if halted' then pos' == pos else pos' == pos + 1
    {
      if FlagAt(interrupts, pos) {
        StepInterrupted(text, interrupts, natives, stable, db0, pos, offset, r, nodes, progress);
        nodes', logged', progress', pos', done', offset', halted', r' :=
          nodes, Some(InterruptedError), progress, pos, pos, offset, true, r;
      } else if IsLineEnd(text, pos) {
        nodes', logged', progress', pos', done', offset', halted', r' :=
          StepLineEnd(text, interrupts, natives, stable, db0, pos, offset, r, nodes, progress);
      } else {
        StepChar(text, interrupts, natives, stable, db0, pos, offset, r, nodes, progress);
        nodes', logged', progress', pos', done', offset', halted', r' :=
          nodes, None, progress, pos + 1, pos + 1, offset, false, r;
      }
    }

    lemma StepInterrupted(text: string, interrupts: seq<bool>, natives: seq<Native>, stable: string -> string,
                          db0: Store, pos: nat, offset: nat, r: RunOutcome, nodes: seq<FastoObject>, progress: seq<nat>)
      requires Walked(text, interrupts, natives, stable, db0, pos, pos, offset, false, r, nodes, None, progress)
      requires pos < |text| && FlagAt(interrupts, pos)
      ensures Walked(text, interrupts, natives, stable, db0, pos, pos, offset, true, r, nodes, Some(InterruptedError), progress)
    {
      WalkInterrupted(UnqliteExec(handle.Some?, natives, statsText), db0, text, interrupts, stable, pos, offset, r);
    }

    lemma StepChar(text: string, interrupts: seq<bool>, natives: seq<Native>, stable: string -> string,
                   db0: Store, pos: nat, offset: nat, r: RunOutcome, nodes: seq<FastoObject>, progress: seq<nat>)
      requires Walked(text, interrupts, natives, stable, db0, pos, pos, offset, false, r, nodes, None, progress)
      requires pos < |text| && !FlagAt(interrupts, pos) && !IsLineEnd(text, pos)
      ensures Walked(text, interrupts, natives, stable, db0, pos + 1, pos + 1, offset, false, r, nodes, None, progress)
    {
      WalkPastChar(UnqliteExec(handle.Some?, natives, statsText), db0, text, interrupts, stable, pos, offset, r);
      ProgressMonotone(pos, pos + 1, |text|);
      NotifiedRaise(progress, Progress(pos, |text|), Progress(pos + 1, |text|));
    }

    /** A line end: notify the progress, run the line, and either halt on its
        error or move one position on. */
    method StepLineEnd(text: string, interrupts: seq<bool>, natives: seq<Native>, stable: string -> string,
                       ghost db0: Store, pos: nat, offset: nat, ghost r: RunOutcome, nodes: seq<FastoObject>, progress: seq<nat>)
      returns (nodes': seq<FastoObject>, logged': Option<Error>, progress': seq<nat>,
               pos': nat, ghost done': nat, offset': nat, halted': bool, ghost r': RunOutcome)
      requires Walked(text, interrupts, natives, stable, db0, pos, pos, offset, false, r, nodes, None, progress)
      requires pos < |text| && !FlagAt(interrupts, pos) && IsLineEnd(text, pos)
      modifies this
      ensures handle == old(handle)
      ensures Walked(text, interrupts, natives, stable, db0, pos', done', offset', halted', r', nodes', logged', progress')
      ensures if halted' then pos' == pos else pos' == pos + 1
    {
      LineEndReady(text, interrupts, natives, stable, db0, pos, offset, r, nodes, progress);
      progress' := progress + [Progress(pos, |text|)];
      var node, err;
      node, err, r' := RunLineEnd(text, pos, offset, natives, stable, db0, r, nodes);
      nodes' := nodes + [node];
      offset', done' := pos + 1, pos + 1;
      if err.Some? {
        LineEndHalts(text, interrupts, natives, stable, db0, pos, offset, r, r', nodes', progress);
        logged', halted', pos' := err, true, pos;
      } else {
        LineEndContinues(text, interrupts, natives, stable, db0, pos, offset, r, r', nodes', progress);
        logged', halted', pos' := None, false, pos + 1;
      }
    }

    lemma LineEndReady(text: string, interrupts: seq<bool>, natives: seq<Native>, stable: string -> string,
                       db0: Store, pos: nat, offset: nat, r: RunOutcome, nodes: seq<FastoObject>, progress: seq<nat>)
      requires Walked(text, interrupts, natives, stable, db0, pos, pos, offset, false, r, nodes, None, progress)
      ensures Valid() && LinePos(text, pos, offset)
      ensures r == RunLines(UnqliteExec(handle.Some?, natives, statsText), db0, LinesBefore(text, pos), 0, stable)
      ensures r.err.None? && db == r.db && NodesHold(nodes, r.commands)
      ensures Walk(UnqliteExec(handle.Some?, natives, statsText), db0, text, interrupts, stable, pos, pos, offset, false, r, None)
      ensures Notified(progress, Progress(pos, |text|))
    {
    }

    /** The walk invariant after the line ending at `pos` ran and failed:
        the walk halts there with the line's error. */
    lemma LineEndHalts(text: string, interrupts: seq<bool>, natives: seq<Native>, stable: string -> string,
                       db0: Store, pos: nat, offset: nat, r: RunOutcome, r': RunOutcome,
                       nodes': seq<FastoObject>, progress: seq<nat>)
      requires Valid() && pos < |text| && !FlagAt(interrupts, pos) && IsLineEnd(text, pos)
      requires Walk(UnqliteExec(handle.Some?, natives, statsText), db0, text, interrupts, stable, pos, pos, offset, false, r, None)
      requires Notified(progress, Progress(pos, |text|))
      requires r' == RunLines(UnqliteExec(handle.Some?, natives, statsText), db0, LinesBefore(text, pos + 1), 0, stable)
      requires db == r'.db && NodesHold(nodes', r'.commands) && r'.err.Some?
      ensures Walked(text, interrupts, natives, stable, db0, pos, pos + 1, pos + 1, true, r', nodes', r'.err,
                     progress + [Progress(pos, |text|)])
    {
      WalkPastLineEnd(UnqliteExec(handle.Some?, natives, statsText), db0, text, interrupts, stable, pos, offset, r, r');
      NotifiedAppend(progress, Progress(pos, |text|), Progress(pos, |text|));
    }

    /** The walk invariant after the line ending at `pos` ran and succeeded:
        the walk moves one position on. */
    lemma LineEndContinues(text: string, interrupts: seq<bool>, natives: seq<Native>, stable: string -> string,
                           db0: Store, pos: nat, offset: nat, r: RunOutcome, r': RunOutcome,
                           nodes': seq<FastoObject>, progress: seq<nat>)
      requires Valid() && pos < |text| && !FlagAt(interrupts, pos) && IsLineEnd(text, pos)
      requires Walk(UnqliteExec(handle.Some?, natives, statsText), db0, text, interrupts, stable, pos, pos, offset, false, r, None)
      requires Notified(progress, Progress(pos, |text|))
      requires r' == RunLines(UnqliteExec(handle.Some?, natives, statsText), db0, LinesBefore(text, pos + 1), 0, stable)
      requires db == r'.db && NodesHold(nodes', r'.commands) && r'.err.None?
      ensures Walked(text, interrupts, natives, stable, db0, pos + 1, pos + 1, pos + 1, false, r', nodes', None,
                     progress + [Progress(pos, |text|)])
    {
      WalkPastLineEnd(UnqliteExec(handle.Some?, natives, statsText), db0, text, interrupts, stable, pos, offset, r, r');
      NotifiedStep(progress, pos, |text|);
    }

    /** The runner at a line end: copy the line out, normalise it, and run it
        as the next line of the script into a new node. */
    method RunLineEnd(text: string, n: nat, offset: nat, natives: seq<Native>, stable: string -> string,
                      ghost db0: Store, ghost r: RunOutcome, nodes: seq<FastoObject>)
      returns (node: FastoObject, err: Option<Error>, ghost r': RunOutcome)
      requires Valid() && LinePos(text, n, offset) && n < |text| && IsLineEnd(text, n)
      requires r == RunLines(UnqliteExec(handle.Some?, natives, statsText), db0, LinesBefore(text, n), 0, stable)
      requires r.err.None? && db == r.db && NodesHold(nodes, r.commands)
      modifies this
      ensures fresh(node) && handle == old(handle) && Valid()
      ensures r' == RunLines(UnqliteExec(handle.Some?, natives, statsText), db0, LinesBefore(text, n + 1), 0, stable)
      ensures db == r'.db && err == r'.err && NodesHold(nodes + [node], r'.commands)
    {
      var command := if n == |text| - 1 then text[offset..] else text[offset..n];
      ghost var exec := UnqliteExec(handle.Some?, natives, statsText);
      RunStep(exec, db0, text, stable, n, offset);
      node, err := RunLine(stable(command), |nodes|, natives);
      r' := RunLines(exec, db0, LinesBefore(text, n + 1), 0, stable);
    }

    /** Create the command node of the `index`-th line of a script and execute
        the line into it. */
    method RunLine(line: string, index: nat, natives: seq<Native>) returns (node: FastoObject, err: Option<Error>)
      requires Valid()
      modifies this
      ensures fresh(node) && handle == old(handle) && Valid()
      ensures var o := UnqliteExec(handle.Some?, natives, statsText)(old(db), line, index);
        && db == o.db && err == o.err && node.text == line && node.children == ChildList(o.child)
    {
      node := new FastoObject(line);
      err := ExecuteImpl(node, Argv(line), NativeAt(natives, index));
    }
  }
}
