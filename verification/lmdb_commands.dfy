/** The LMDB command table: one `CommandInfo` record per command the LMDB shell
    knows, compiled in as a constant and never changed at run time. */
module LmdbCommands {
  import opened Text

  /** Static metadata of one command: its name, the usage of its arguments, a
      one-line summary, the version that introduced it, an example, and its
      minimum and maximum argument counts (a maximum of 0 means no separate
      maximum). */
  datatype CommandInfo = CommandInfo(
    name: string,
    params: string,
    summary: string,
    since: nat,
    example: string,
    minArgs: nat,
    maxArgs: nat)

  /** The version marker of a command whose introducing version is not known. */
  const UNDEFINED_SINCE: nat := 0
  /** The example text of a command that has none. */
  const UNDEFINED_EXAMPLE_STR: string := ""

  const LMDB_COMMANDS: seq<CommandInfo> := [
    CommandInfo("PUT", "<key> <value>", "Set the value of a key.",
                UNDEFINED_SINCE, UNDEFINED_EXAMPLE_STR, 2, 0),
    CommandInfo("GET", "<key>", "Get the value of a key.",
                UNDEFINED_SINCE, UNDEFINED_EXAMPLE_STR, 1, 0),
    CommandInfo("DEL", "<key>", "Delete key.",
                UNDEFINED_SINCE, UNDEFINED_EXAMPLE_STR, 1, 0),
    CommandInfo("KEYS", "<key_start> <key_end> <limit>", "Find all keys matching the given limits.",
                UNDEFINED_SINCE, UNDEFINED_EXAMPLE_STR, 3, 0),
    CommandInfo("INFO", "<args>", "These command return database information.",
                UNDEFINED_SINCE, UNDEFINED_EXAMPLE_STR, 1, 0),
    CommandInfo("QUIT", "-", "Close the connection.",
                UNDEFINED_SINCE, UNDEFINED_EXAMPLE_STR, 0, 0),
    // extended commands
    CommandInfo("INTERRUPT", "-", "Command execution interrupt",
                UNDEFINED_SINCE, UNDEFINED_EXAMPLE_STR, 0, 0),
    CommandInfo("DBSIZE", "-", "Return the number of keys in the selected database",
                UNDEFINED_SINCE, UNDEFINED_EXAMPLE_STR, 0, 0)
  ]

  /** The names of the commands of `table`, in table order. */
  function Names(table: seq<CommandInfo>): seq<string>
  {
    seq(|table|, i requires 0 <= i < |table| => table[i].name)
  }

  /** The number of occurrences of `c` in `s`. */
  function CountChar(s: string, c: char): nat
  {
    if s == [] then 0 else CountChar(s[1..], c) + (if s[0] == c then 1 else 0)
  }

  /** The number of `<...>` placeholders in an argument usage string. */
  function Placeholders(params: string): nat
  {
    CountChar(params, '<')
  }

  /** Names that are equal ignoring case have the same length and the same
      first letter ignoring case. */
  lemma EqualIgnoreCaseShape(a: string, b: string)
    requires EqualIgnoreCase(a, b) && a != []
    ensures |a| == |b| && LowerChar(a[0]) == LowerChar(b[0])
  {
    assert |Lower(a)| == |a| && |Lower(b)| == |b|;
    assert Lower(a)[0] == Lower(b)[0];
  }

  /** The table holds the eight commands PUT, GET, DEL, KEYS, INFO, QUIT,
      INTERRUPT and DBSIZE, in that order. */
  lemma TableNames()
    ensures Names(LMDB_COMMANDS) == ["PUT", "GET", "DEL", "KEYS", "INFO", "QUIT", "INTERRUPT", "DBSIZE"]
  {
  }

  /** The minimum argument counts, in table order; every command has an
      unknown introducing version, no example and no separate maximum. */
  lemma TableArity()
    ensures forall i :: 0 <= i < |LMDB_COMMANDS| ==>
      LMDB_COMMANDS[i].minArgs == [2, 1, 1, 3, 1, 0, 0, 0][i]
    ensures forall c :: c in LMDB_COMMANDS ==>
      c.since == UNDEFINED_SINCE && c.example == UNDEFINED_EXAMPLE_STR && c.maxArgs == 0
  {
  }

  /** No two commands of the table have names that are equal ignoring case, so a
      case-insensitive lookup by name finds at most one command. */
  lemma {:induction false} NamesDistinctIgnoringCase()
    ensures forall i, j :: 0 <= i < j < |LMDB_COMMANDS| ==>
      !EqualIgnoreCase(LMDB_COMMANDS[i].name, LMDB_COMMANDS[j].name)
  {
    var t := LMDB_COMMANDS;
    forall i, j | 0 <= i < j < |t|
      ensures !EqualIgnoreCase(t[i].name, t[j].name)
    {
      if EqualIgnoreCase(t[i].name, t[j].name) {
        EqualIgnoreCaseShape(t[i].name, t[j].name);
        assert false;
      }
    }
  }

  /** Every command name is non-empty. */
  lemma NamesNonEmpty()
    ensures forall c :: c in LMDB_COMMANDS ==> c.name != []
  {
  }

  /** The usage string of every command names as many placeholders as the
      command's minimum argument count; for KEYS, three: start, end and limit. */
  lemma {:induction false} UsageMatchesArity()
    ensures forall i :: 0 <= i < |LMDB_COMMANDS| ==>
      Placeholders(LMDB_COMMANDS[i].params) == LMDB_COMMANDS[i].minArgs
    ensures Placeholders(LMDB_COMMANDS[3].params) == 3 == LMDB_COMMANDS[3].minArgs
  {
    forall i | 0 <= i < |LMDB_COMMANDS|
      ensures Placeholders(LMDB_COMMANDS[i].params) == LMDB_COMMANDS[i].minArgs
    {
      EntryUsage(i);
    }
    EntryUsage(3);
  }

  lemma EntryUsage(i: nat)
    requires i < |LMDB_COMMANDS|
    ensures Placeholders(LMDB_COMMANDS[i].params) == LMDB_COMMANDS[i].minArgs
  {
    var c := LMDB_COMMANDS[i];
    if i == 0 {
      assert c.params == "<key> <value>" && c.minArgs == 2;
      TwoPlaceholders();
    } else if i == 1 || i == 2 {
      assert c.params == "<key>" && c.minArgs == 1;
      ShortPieces();
    } else if i == 3 {
      assert c.params == "<key_start> <key_end> <limit>" && c.minArgs == 3;
      ThreePlaceholders();
    } else if i == 4 {
      assert c.params == "<args>" && c.minArgs == 1;
      ShortPieces();
    } else {
      assert c.params == "-" && c.minArgs == 0;
      NoPlaceholder();
    }
  }

  lemma NoPlaceholder()
    ensures Placeholders("-") == 0
  {
  }

  lemma ShortPieces()
    ensures CountChar("<key> ", '<') == 1 && CountChar("<value>", '<') == 1
    ensures Placeholders("<key>") == 1 && Placeholders("<args>") == 1
  {
  }

  lemma KeyStartPiece()
    ensures CountChar("<key_start> ", '<') == 1
  {
  }

  lemma KeyEndPiece()
    ensures CountChar("<key_end> ", '<') == 1
  {
  }

  lemma LimitPiece()
    ensures CountChar("<limit>", '<') == 1
  {
  }

  lemma TwoPlaceholders()
    ensures Placeholders("<key> <value>") == 2
  {
    var a, b := "<key> ", "<value>";
    assert a + b == "<key> <value>";
    ShortPieces();
    CountAppend(a, b, '<');
  }

  lemma ThreePlaceholders()
    ensures Placeholders("<key_start> <key_end> <limit>") == 3
  {
    var a, b, c := "<key_start> ", "<key_end> ", "<limit>";
    assert a + b + c == "<key_start> <key_end> <limit>";
    KeyStartPiece();
    KeyEndPiece();
    LimitPiece();
    CountThree(a, b, c);
  }

  lemma CountThree(a: string, b: string, c: string)
    requires CountChar(a, '<') == CountChar(b, '<') == CountChar(c, '<') == 1
    ensures CountChar(a + b + c, '<') == 3
  {
    CountAppend(a, b, '<');
    CountAppend(a + b, c, '<');
  }

  lemma {:induction false} CountAppend(s: string, t: string, c: char)
    ensures CountChar(s + t, c) == CountChar(s, c) + CountChar(t, c)
  {
    if s == [] {
      assert s + t == t;
    } else {
      assert (s + t)[1..] == s[1..] + t;
      CountAppend(s[1..], t, c);
    }
  }
}
