# Unqlite driver and LMDB shell lexer of FastoNoSQL, modelled in Dafny

This project models two parts of FastoNoSQL.

The first is the **Unqlite driver**. It covers:
- the native handle and its connection lifecycle (`connect`, `disconnect`, `isConnected`, `clear`);
- the verb dispatcher `execute_impl`, with its `get`, `put` and `del` wrappers;
- the two cursor scans, `keys` and `dbsize`;
- the translators that turn structured key commands into command lines (`commandDeleteImpl`, `commandLoadImpl`, `commandCreateImpl`, `commandChangeTTLImpl`);
- the handlers that run a multi-line script (`handleExecuteEvent`) and load the keys of the database (`handleLoadDatabaseContentEvent`);
- `currentDataBaseInfo`.

The second is the **LMDB command table** and the queries the **LMDB shell lexer** runs over it: `supportedVersions`, `commandsCount`, `updateAutoCompletionList`, `callTips` and `paintCommands`.

## Modules

- `Common` (common.dfy) holds the shared pieces:
  - `Option`;
  - the driver's error value (`Error`, with kinds `EError` and `EInterrupted`);
  - the oracles that stand in for the native library: `Native` for one store call, `OpenResult` for `unqlite_open`.
- `Text` (text.dfy) holds the string helpers:
  - ASCII case folding, standing in for `strcasecmp` and Qt's case-insensitive compare and `startsWith`;
  - `std::string` ordering;
  - splitting a command line into words;
  - decimal rendering, `atoll`, and the conversions to `int32` and `uint64`.
- `Values` (values.dfy) holds the values a command produces and `FastoObject`, the result-tree node. That node is a class whose children are appended in place.
- `UnqliteStore` (unqlite_store.dfy) specifies two things on values:
  - the database behind the handle: keys in cursor order plus a key/value map;
  - one command, as the function `Execute`.
- `UnqliteCommands` (unqlite_commands.dfy) holds the four translators and the `KEYS` request of the content loader.
- `UnqliteScript` (unqlite_script.dfy) specifies what a script does: how it is cut into lines, and what running the lines in order yields.
- `Unqlite` (unqlite_driver.dfy) holds the class `UnqliteDriver`, whose fields are the handle and the database. Its methods are the driver's imperative code, each proved against the functions above.
- `LmdbCommands` (lmdb_commands.dfy) holds the constant command table.
- `LmdbLexer` (lmdb_lexer.dfy) holds the lexer queries. The queries that loop (versions, completions, call tips, painting) are methods with the source's loops, each proved against a recursive specification function. `CommandsCount` has no loop and is a function.

Where the native library is called, the model takes its behaviour as a parameter:
- `Native(fail, errLog)` for one store call;
- `OpenResult` for opening the database;
- `interrupts[n]` for the interrupt flag as the script walk sees it at position `n`;
- `natives[i]` for the store call of the `i`-th script line.

The base driver's `stableCommand` and the lexer's `canSkipCommand` are parameters too (`stable`, `skip`).

## Model

| member | source | states |
|---|---|---|
| Unqlite.UnqliteDriver.Clear | src/core/unqlite/unqlite_driver.cpp:375-379 | the handle becomes null; the database is untouched |
| Unqlite.UnqliteDriver.Connect | src/core/unqlite/unqlite_driver.cpp:104-123 | an open handle is kept and no error is returned; otherwise the open result installs the handle, or leaves it null with "Fail open database: <log>!"; no error exactly when connected afterwards |
| Unqlite.UnqliteDriver.Disconnect | src/core/unqlite/unqlite_driver.cpp:125-133 | never fails; afterwards the handle is null and the database unchanged |
| Unqlite.UnqliteDriver.Dbsize | src/core/unqlite/unqlite_driver.cpp:174-199 | fails with "dbsize function error: <log>" exactly when the native call fails; otherwise the cursor count equals the number of stored keys |
| Unqlite.UnqliteDriver.Keys | src/core/unqlite/unqlite_driver.cpp:340-368 | fails exactly when the cursor cannot be opened; otherwise returns `KeysSpec`: the first `limit` keys in cursor order strictly between the bounds |
| Unqlite.UnqliteDriver.Get | src/core/unqlite/unqlite_driver.cpp:304-314 | the stored value, or "get function error: <log>" when the call fails or the key is missing |
| Unqlite.UnqliteDriver.Put | src/core/unqlite/unqlite_driver.cpp:316-326 | on success the store becomes `Put(old, key, value)`; on failure it is unchanged; the store stays valid |
| Unqlite.UnqliteDriver.Del | src/core/unqlite/unqlite_driver.cpp:328-338 | on success the key is deleted; fails when the call fails or the key is missing, and then the store is unchanged |
| Unqlite.UnqliteDriver.ExecuteImpl | src/core/unqlite/unqlite_driver.cpp:208-301 | the new store, the error and the children appended to `out` are exactly those `Execute` gives for the argument vector |
| Unqlite.UnqliteDriver.CurrentDataBaseInfo | src/core/unqlite/unqlite_driver.cpp:523-529 | database "0", the default one, whose size is the key count, or 0 when the cursor fails (that error is dropped) |
| Unqlite.UnqliteDriver.HandleLoadDatabaseContentEvent | src/core/unqlite/unqlite_driver.cpp:652-695 | store and handle unchanged; error exactly when the scan fails, and then no keys; otherwise one value-less entry per key that `KEYS a z <countKeys>` finds, with the count printed unsigned (the corrected request of the finding below) |
| Unqlite.UnqliteDriver.HandleExecuteEvent | src/core/unqlite/unqlite_driver.cpp:566-613 | empty text logs "Empty command line." and runs nothing; otherwise the store, the logged error and the result nodes equal `ScriptOutcome`; notified progress starts at 0, never decreases, stays below 100 until the last notification, and ends with a single 100 |
| Unqlite.UnqliteDriver.RunScript | src/core/unqlite/unqlite_driver.cpp:580-603 | the character loop keeps the walk invariant; it stops at the end of the text, at the interrupt, or after the first failing line |
| Unqlite.UnqliteDriver.WalkStep | src/core/unqlite/unqlite_driver.cpp:581-602 | one character of the loop keeps the walk invariant: it halts at the interrupt or a failed line without moving, and otherwise moves one position on |
| Unqlite.UnqliteDriver.StepLineEnd | src/core/unqlite/unqlite_driver.cpp:587-602 | at a line end the progress is notified, the line runs, and the walk halts on its error or moves on |
| Unqlite.UnqliteDriver.RunLineEnd | src/core/unqlite/unqlite_driver.cpp:586-601 | at a line end the copied, normalised line runs as the next script line, into a new node |
| Unqlite.Progress | src/core/unqlite/unqlite_driver.cpp:579-587 | the progress at position `n` lies in 0..100, and below 100 before the end of the text |
| Unqlite.ProgressMonotone | src/core/unqlite/unqlite_driver.cpp:579-587 | progress never decreases as the walk advances |
| UnqliteStore.Put | src/core/unqlite/unqlite_driver.cpp:316-326 | storing keeps the store valid: every key once in cursor order, the cursor visiting exactly the stored keys |
| UnqliteStore.Remove | src/core/unqlite/unqlite_driver.cpp:328-338 | the cursor order loses exactly the deleted key and keeps no key twice |
| UnqliteStore.Delete | src/core/unqlite/unqlite_driver.cpp:328-338 | deleting keeps the store valid |
| UnqliteStore.DeleteKeys | src/core/unqlite/unqlite_driver.cpp:328-338 | after a delete the stored keys are the old ones minus the deleted key |
| UnqliteStore.EntryCount | src/core/unqlite/unqlite_driver.cpp:185-193 | the cursor visits as many entries as there are stored keys |
| UnqliteStore.KeysScanBounds | src/core/unqlite/unqlite_driver.cpp:354-363 | `KEYS` returns at most `limit` keys, each strictly between the bounds, in cursor order; fewer than `limit` means every key between the bounds |
| UnqliteStore.InRangeKeysFacts | src/core/unqlite/unqlite_driver.cpp:357-359 | the keys between the bounds are a subsequence of the cursor order, holding exactly its keys that lie between the bounds |
| UnqliteStore.KeysSpecDistinct | src/core/unqlite/unqlite_driver.cpp:340-368 | over a valid store `KEYS` never reports a key twice |
| Text.LessIrreflexive | src/core/unqlite/unqlite_driver.cpp:357 | no key lies strictly below itself under the `std::string` order |
| UnqliteStore.BoundsNotReported | src/core/unqlite/unqlite_driver.cpp:354-363 | the bounds are strict: `KEYS` never reports the start or the end key itself |
| UnqliteStore.ExecuteFacts | src/core/unqlite/unqlite_driver.cpp:208-301 | a valid store stays valid; a child appears exactly on success; a failure or a command without a native call leaves the store unchanged; a wrong argument count is refused before any native call |
| UnqliteStore.VerbOfSpelling | src/core/unqlite/unqlite_driver.cpp:210-278 | a word selects a verb exactly when it equals the verb's spelling ignoring case |
| UnqliteStore.VerbIgnoresCase | src/core/unqlite/unqlite_driver.cpp:210-278 | two spellings of a verb that differ only in case run the same command |
| UnqliteStore.UnsupportedVerb | src/core/unqlite/unqlite_driver.cpp:296-300 | an unknown verb gives "Not supported command: <verb>" and changes nothing |
| UnqliteStore.GetCommand | src/core/unqlite/unqlite_driver.cpp:224-237 | `GET k` gives the stored value, or the get error when the call fails or the key is missing |
| UnqliteStore.PutCommand | src/core/unqlite/unqlite_driver.cpp:252-264 | `PUT k v` stores the value and answers "STORED", or gives the put error |
| UnqliteStore.DelCommand | src/core/unqlite/unqlite_driver.cpp:265-277 | `DEL k` deletes the key and answers "DELETED", or gives the delete error |
| UnqliteStore.PutThenGet | src/core/unqlite/unqlite_driver.cpp:224-264 | after a successful `PUT`, `GET` of the same key returns the stored value |
| UnqliteStore.DelThenGet | src/core/unqlite/unqlite_driver.cpp:224-277 | after `DEL` of a stored key, `GET` of it fails and every other key keeps its value |
| UnqliteStore.DbsizeCountsEntries | src/core/unqlite/unqlite_driver.cpp:238-251 | `DBSIZE` reports the number of stored keys |
| UnqliteCommands.CommandDeleteDeletes | src/core/unqlite/unqlite_driver.cpp:406-414 | the delete translation of a stored one-word key succeeds, and running it removes that key and only it |
| UnqliteCommands.CommandLoadLoads | src/core/unqlite/unqlite_driver.cpp:416-424 | the load translation of a stored one-word key runs as `GET` of it and returns its value |
| UnqliteCommands.CommandCreateStores | src/core/unqlite/unqlite_driver.cpp:426-438 | the create translation of a one-word key and a one-word string value stores the value; loading the key afterwards returns it |
| UnqliteCommands.CommandCreateStoresInteger | src/core/unqlite/unqlite_driver.cpp:426-438 | under a one-word key, an unsigned integer value is stored as its decimal text |
| UnqliteCommands.CommandCreateOfPairRefused | src/core/unqlite/unqlite_driver.cpp:426-438 | an array of two one-word strings renders as two words; the resulting `PUT` has too many arguments and is refused without touching the store |
| UnqliteCommands.CommandCreateOfSingleStores | src/core/unqlite/unqlite_driver.cpp:426-438 | an array of one one-word string renders as that word alone, so under a one-word key it is stored like the string |
| UnqliteCommands.CommandsOfSpacedKeyRefused | src/core/unqlite/unqlite_driver.cpp:406-424 | the key is pasted into the line unquoted: a key of two words makes `DEL` and `GET` refuse the line for its argument count, with the store untouched |
| UnqliteCommands.CommandChangeTtlRefused | src/core/unqlite/unqlite_driver.cpp:440-447 | changing the TTL always fails with an ordinary error and leaves the command line as it was |
| UnqliteCommands.KeysCommandAsWrittenLimit | src/core/unqlite/unqlite_driver.cpp:658 | with `%d`, the limit read back is the count below 2^31 and the count plus 2^64 - 2^32 from 2^31 on |
| UnqliteCommands.KeysCommandAsWrittenOverflows | src/core/unqlite/unqlite_driver.cpp:658 | for every count from 2^31 on, the limit read back differs from the count and is near 2^64 |
| UnqliteCommands.KeysCommandLimit | src/core/unqlite/unqlite_driver.cpp:658 | with the count printed unsigned, the line splits into `KEYS a z <n>` and the limit read back is the count |
| UnqliteCommands.KeysCommandRuns | src/core/unqlite/unqlite_driver.cpp:658-662 | the content request runs `KEYS` over "a".."z" with the key count as limit, and leaves the store unchanged |
| UnqliteScript.LinesRoundTrip | src/core/unqlite/unqlite_driver.cpp:586-595 | joining the lines with '\n' gives the script back; no line but the last holds a '\n' |
| UnqliteScript.CountEndsAll | src/core/unqlite/unqlite_driver.cpp:586 | each line of the script ends at exactly one line end of the walk |
| UnqliteScript.RunLines | src/core/unqlite/unqlite_driver.cpp:596-601 | one node per line run; every line runs when none fails; a failed run has at least one node |
| UnqliteScript.RunLinesChildren | src/core/unqlite/unqlite_driver.cpp:596-601 | every line that succeeded left one child; the failing line left none |
| UnqliteScript.RunLinesTexts | src/core/unqlite/unqlite_driver.cpp:596 | the node of the i-th line holds that line, normalised |
| UnqliteScript.RunLinesAppend | src/core/unqlite/unqlite_driver.cpp:580-603 | running `a + b` runs `a` and, unless `a` failed, `b` from the store `a` left |
| UnqliteScript.RunLinesStopped | src/core/unqlite/unqlite_driver.cpp:598-601 | once a run has failed, further lines change nothing |
| UnqliteScript.FirstInterrupt | src/core/unqlite/unqlite_driver.cpp:581-585 | the first position from `n` at which the flag is seen, or the end |
| UnqliteScript.ScriptStopsAtInterrupt | src/core/unqlite/unqlite_driver.cpp:581-585 | an interrupt first seen at `n` stops the script after the lines that end before `n`, with "Interrupted exec." |
| UnqliteScript.ScriptStopsAtError | src/core/unqlite/unqlite_driver.cpp:597-601 | a line that fails before any interrupt ends the script with that line's error |
| UnqliteScript.ScriptRunsToEnd | src/core/unqlite/unqlite_driver.cpp:580-603 | without an interrupt every line runs, until one fails |
| UnqliteScript.WalkResult | src/core/unqlite/unqlite_driver.cpp:580-603 | where the character walk stops, its store, nodes and error are `ScriptOutcome` |
| UnqliteScript.UnqliteExecOneChild | src/core/unqlite/unqlite_driver.cpp:217-294 | a line executed by the driver appends a child exactly when it succeeds |
| Values.StringEntriesOfStrings | src/core/unqlite/unqlite_driver.cpp:679-688 | reading back an array of strings gives one value-less entry per key, in order |
| Values.FastoObject.AddChildren | src/core/unqlite/unqlite_driver.cpp:220 | the child is appended after the existing children |
| Text.AtollOfNat | src/core/unqlite/unqlite_driver.cpp:284 | `atoll` of a decimal rendering gives the number back |
| Text.AtollOfInt | src/core/unqlite/unqlite_driver.cpp:284 | `atoll` of a signed decimal rendering gives the integer back |
| LmdbCommands.TableNames | src/core/lmdb/lmdb_driver.h:9-37 | the table holds PUT, GET, DEL, KEYS, INFO, QUIT, INTERRUPT, DBSIZE, in that order |
| LmdbCommands.TableArity | src/core/lmdb/lmdb_driver.h:9-37 | the minimum argument counts are 2,1,1,3,1,0,0,0; every command has an undefined version, no example and maximum 0 |
| LmdbCommands.NamesDistinctIgnoringCase | src/core/lmdb/lmdb_driver.h:9-37 | no two command names are equal ignoring case |
| LmdbCommands.NamesNonEmpty | src/core/lmdb/lmdb_driver.h:9-37 | every command name is non-empty |
| LmdbCommands.UsageMatchesArity | src/core/lmdb/lmdb_driver.h:9-37 | each usage string has as many `<...>` placeholders as the minimum argument count; KEYS has three |
| LmdbLexer.SupportedVersions | src/shell/lmdb_lexer.cpp:77-99 | strictly ascending; holds exactly the versions the commands declare; for LMDB, just the undefined version |
| LmdbLexer.DistinctVersions | src/shell/lmdb_lexer.cpp:80-94 | the collecting loop yields each version once, in first-occurrence order |
| LmdbLexer.SortVersions | src/shell/lmdb_lexer.cpp:96 | the array ends sorted ascending and a permutation of what it held |
| LmdbLexer.DedupFacts | src/shell/lmdb_lexer.cpp:80-94 | the collected list has no duplicates and holds exactly the input's values |
| LmdbLexer.SortedDistinct | src/shell/lmdb_lexer.cpp:77-99 | sorting the collected versions gives a strictly ascending list of exactly the declared versions |
| LmdbLexer.LmdbDistinctVersions | src/shell/lmdb_lexer.cpp:77-99 | every LMDB command has the undefined version, so exactly that one version is collected |
| LmdbLexer.CommandsCount | src/shell/lmdb_lexer.cpp:101-104 | the number of commands in the table, eight |
| LmdbLexer.UpdateAutoCompletionList | src/shell/lmdb_lexer.cpp:17-37 | the earlier list is kept as a prefix, followed by the `Completions` of the typed words in context order |
| LmdbLexer.AppendCompletions | src/shell/lmdb_lexer.cpp:19-36 | for any command table, the outer loop appends the `Completions` of the context words, in order, after the earlier list |
| LmdbLexer.AppendWordCompletions | src/shell/lmdb_lexer.cpp:20-35 | for one word: each non-skipped command it starts, ignoring case, as `NAME?1` in table order, then `help?2` if it starts "help" |
| LmdbLexer.CompletionsMembers | src/shell/lmdb_lexer.cpp:17-37 | a string is offered exactly when some typed word offers it: a non-skipped command the word starts, or `help` |
| LmdbLexer.TableCompletionsMembers | src/shell/lmdb_lexer.cpp:22-32 | a command completion is offered for a word exactly when a non-skipped command's name starts with it |
| LmdbLexer.CallTips | src/shell/lmdb_lexer.cpp:39-54 | the tip of the first word, last word excluded, that names a command ignoring case; no tip when none does |
| LmdbLexer.TipFromNone | src/shell/lmdb_lexer.cpp:43-50 | no tip exactly when no command is named like the word |
| LmdbLexer.TipFromSound | src/shell/lmdb_lexer.cpp:43-50 | a tip is a command of the table named like the word |
| LmdbLexer.TipFromFirst | src/shell/lmdb_lexer.cpp:43-50 | the tip is the first command, in table order, named like the word |
| LmdbLexer.LmdbTipOfName | src/shell/lmdb_lexer.cpp:39-54 | each LMDB command is the tip for its own name typed in any case |
| LmdbLexer.FirstTipNone | src/shell/lmdb_lexer.cpp:41-53 | no tip exactly when no word names any command |
| LmdbLexer.FirstTipFirst | src/shell/lmdb_lexer.cpp:41-53 | the tip comes from the first word that names a command |
| LmdbLexer.PaintCommands | src/shell/lmdb_lexer.cpp:134-149 | the styling requests are `PaintSpec`: for each command in turn, one per match the resuming search finds |
| LmdbLexer.PaintTable | src/shell/lmdb_lexer.cpp:136-148 | for any table of non-empty names, the requests are `PaintSpec` of that table, name by name |
| LmdbLexer.PaintWord | src/shell/lmdb_lexer.cpp:138-147 | the search loop for one name appends one request per reported match, in order |
| LmdbLexer.PaintSpecSound | src/shell/lmdb_lexer.cpp:134-149 | every request styles an occurrence of some command name, ignoring case, with that name's length and the command style |
| LmdbLexer.IndexOfIgnoreCaseFirst | src/shell/lmdb_lexer.cpp:142 | the search returns the first match from `from` on, or -1 when there is none |
| LmdbLexer.MatchAtIgnoresCase | src/shell/lmdb_lexer.cpp:142 | a match at `q` is the text at `q` equal to the name ignoring case |
| LmdbLexer.OccurrencesSound | src/shell/lmdb_lexer.cpp:142-147 | every reported position is a match |
| LmdbLexer.OccurrencesApart | src/shell/lmdb_lexer.cpp:142-147 | reported matches ascend and do not overlap |
| LmdbLexer.OccurrencesGaps | src/shell/lmdb_lexer.cpp:142-147 | no match lies before the first report, between reports, or after the last |

## Left out

- The native Unqlite library is replaced by oracles:
  - one `Native` per store call;
  - `OpenResult` for `unqlite_open`;
  - the cursor visits the database's keys in its stored order, and new keys join the end.

  Which error text the native log holds is a parameter.
- Unqlite.UnqliteDriver.Get and Unqlite.UnqliteDriver.Del treat a missing key as a failed native call (`UNQLITE_NOTFOUND`), with the same error text.
- Some Qt, event and threading plumbing is not modelled:
  - `reply`, `notifyProgress` as a Qt call, `RootLocker`, the sender and the response events.

  Each handler instead returns its result. `HandleExecuteEvent` returns the progress values it notifies; they are whole-number percentages rather than `double` steps.
- The handler of the script event never sends a reply, and the model reflects that: it only returns what it logs.
- The source never sets the "Empty command line." error on the response either: it is only logged, and `logged` is that log.
- The 1024-byte `SNPrintf` buffers and the 128-byte `command` buffer with `strcpy`/`strncpy` are not modelled. Lines and messages are unbounded, so truncation and overflow of long lines are not captured.
- The `info` branch returns a fixed statistics text (`statsText`). The native `info` call is a stub that always succeeds.
- These are not part of this model: `testConnection`, `serverInfo`, `serverDiscoveryInfo` and the other event handlers (connect, disconnect, command request, databases info, set default database, server info).
- The base driver's `execute` is not part of this model. Its tokenisation of a line into `argv` is modelled as splitting on spaces (`Argv`), and an empty line gives the single empty verb.
- `stableCommand` is the parameter `stable`.
- Unqlite.UnqliteDriver.HandleExecuteEvent takes the script as a whole string that holds no NUL character. The source reads it through `c_strornull` and `strlen`, and copies lines with `strcpy`/`strncpy`, so a NUL would end the script (or the line) there; the model runs the whole string instead. `c_strornull` is taken to give null exactly for the empty text.
- The translators copy the formatted line into `cmdstring` as a C string, which would cut it at a NUL. The round-trip lemmas of `UnqliteCommands` are stated for words (`IsWord`), which hold no NUL, so that cut never applies to them.
- UnqliteCommands.CommandDeleteDeletes covers one-word keys only. The translators paste the key into the line unquoted, so a key that is empty or holds a space does not round-trip: it gives a line with the wrong number of words (`CommandsOfSpacedKeyRefused`).
- UnqliteCommands.CommandLoadLoads covers one-word keys only, for the same reason.
- UnqliteCommands.CommandCreateStores covers a one-word key and a one-word string value only. A key or value that is empty or holds a space is pasted unquoted and can change the words of the `PUT` line. For example, a value of two words makes the line one word too long, and it is refused (`CommandCreateOfPairRefused` shows the same line).
- UnqliteCommands.CommandCreateStoresInteger covers one-word keys only, for the same reason.
- UnqliteCommands.CommandCreateOfPairRefused covers arrays of two one-word strings only. An array of one one-word string is stored (`CommandCreateOfSingleStores`). Other arrays give a line whose word count depends on their rendering.
- Unqlite.UnqliteDriver.HandleLoadDatabaseContentEvent runs the corrected request, with the count printed unsigned. For a count from 2^31 on, the source's `%d` text gives a limit near 2^64, so the source returns every key between "a" and "z" where the model returns the first `countKeys`. The as-written request and its limit are `UnqliteCommands.KeysCommandAsWritten` and `UnqliteCommands.KeysCommandAsWrittenLimit` (see "## Findings").
- Values.Render models `common::convertToString`, which is not part of this model. It renders a string as itself, an unsigned integer in decimal, and an array as its items joined by the delimiter.
- Values.Value holds only the kinds the driver creates: strings, unsigned integers and arrays. `commandCreateImpl` accepts any `NValue`, but booleans, signed integers, doubles, null and the other `common::Value` kinds are not modelled. `UnqliteCommands.CommandCreateStoresInteger` and `UnqliteCommands.CommandCreateOfPairRefused` hold under this rendering.
- Case folding is ASCII only: `strcasecmp` in the C locale, with Qt's Unicode case folding restricted to ASCII.
- `atoll` overflow (values beyond 64 bits) is not modelled. `Atoll` is exact on any digit string.
- `FastoObject` identity and ownership (parent pointers, reference counts) are not modelled. The script's nodes are compared by their text and children.
- The `FastoObjectArray` and `dynamic_cast` checks of the content loader are modelled as "first child is an array value".
- `canSkipCommand` (the version filter of the completion API) is the parameter `skip`.
- `makeCallTip` is not part of this model. A tip is represented by the `CommandInfo` it is made for, and the `commas`, `style` and `shifts` arguments of `callTips` are unused by the source.
- LmdbLexer.CallTips requires a non-empty context: the source's loop bound `context.end() - 1` is undefined on an empty list.
- `styleText`, including the painting of the `help` keyword, and `language`, `version` and `basedOn` are not part of this model.
- `startStyling` and `setStyling` are recorded as `Span` requests.
- LmdbLexer.SortVersions stands in for `std::sort` with an insertion sort. Only its result is claimed: ascending order and a permutation.
- LmdbLexer.PaintWord requires a non-empty name: with an empty name the source's search would never advance. Every table name is non-empty (`NamesNonEmpty`).
- The values of `UNDEFINED_SINCE`, `UNDEFINED_EXAMPLE_STR` and `PROJECT_NAME_TITLE` are defined outside the modelled files. The model fixes the first two as 0 and "", and takes the title as a parameter.

## Findings

| source | as written | input that shows it | evidently intended | confidence | as-written member | corrected member |
|---|---|---|---|---|---|---|
| src/core/unqlite/unqlite_driver.cpp:658 | the `uint32_t` key count is formatted with `%d`; `atoll` reads it back signed and `keys` converts it to `uint64_t` | countKeys = 2^31: the line says `KEYS a z -2147483648` and the limit becomes 2^64 - 2^31 | the count printed unsigned, so the limit is the count asked for | not executed | UnqliteCommands.KeysCommandAsWrittenOverflows | UnqliteCommands.KeysCommandLimit |
