/** The queries the LMDB shell lexer and its completion API run over the LMDB
    command table: the versions it supports, the number of commands,
    auto-completion of a typed prefix, call tips for a typed command, and the
    search for command names that the highlighter paints. */
module LmdbLexer {
  import opened Common
  import opened Text
  import opened LmdbCommands

  /** The help keyword that completion also offers. */
  const HELP: string := "help"

  /** The style the highlighter gives to a command name (`BaseQsciLexer::Command`). */
  const COMMAND_STYLE: nat := 1

  // ---------------------------------------------------------------- supported versions

  /** The introducing versions of the commands of `table`, in table order. */
  function Sinces(table: seq<CommandInfo>): seq<nat>
  {
    seq(|table|, i requires 0 <= i < |table| => table[i].since)
  }

  predicate NoDuplicates(s: seq<nat>)
  {
    forall i, j :: 0 <= i < j < |s| ==> s[i] != s[j]
  }

  predicate Ascending(s: seq<nat>)
  {
    forall i, j :: 0 <= i < j < |s| ==> s[i] <= s[j]
  }

  predicate StrictlyAscending(s: seq<nat>)
  {
    forall i, j :: 0 <= i < j < |s| ==> s[i] < s[j]
  }

  /** The values of `s` in the order of their first occurrence, each once. */
  function Dedup(s: seq<nat>): seq<nat>
  {
    if s == [] then []
    else
      var d := Dedup(s[..|s| - 1]);
      if s[|s| - 1] in d then d else d + [s[|s| - 1]]
  }

  /** De-duplication keeps every value and no value twice. */
  lemma {:induction false} DedupFacts(s: seq<nat>)
    ensures NoDuplicates(Dedup(s))
    ensures forall x :: x in Dedup(s) <==> x in s
  {
    if s != [] {
      var init := s[..|s| - 1];
      DedupFacts(init);
      assert s == init + [s[|s| - 1]];
    }
  }

  lemma {:induction false} NoDuplicatesCount(t: seq<nat>, x: nat)
    requires NoDuplicates(t)
    ensures multiset(t)[x] <= 1
  {
    if t != [] {
      var init := t[..|t| - 1];
      assert t == init + [t[|t| - 1]];
      assert NoDuplicates(init);
      NoDuplicatesCount(init, x);
      if t[|t| - 1] == x {
        assert x !in init;
      }
    }
  }

  lemma TwoCopies(s: seq<nat>, i: nat, j: nat)
    requires i < j < |s| && s[i] == s[j]
    ensures multiset(s)[s[i]] >= 2
  {
    assert s == s[..i] + [s[i]] + s[i + 1..j] + [s[j]] + s[j + 1..];
  }

  /** A permutation of a list without duplicates has none either. */
  lemma PermutationNoDuplicates(s: seq<nat>, t: seq<nat>)
    requires multiset(s) == multiset(t) && NoDuplicates(t)
    ensures NoDuplicates(s)
  {
    forall i, j | 0 <= i < j < |s|
      ensures s[i] != s[j]
    {
      if s[i] == s[j] {
        TwoCopies(s, i, j);
        NoDuplicatesCount(t, s[i]);
        assert false;
      }
    }
  }

  /** A non-empty list holding one value only de-duplicates to that value. */
  lemma {:induction false} DedupOfConstant(s: seq<nat>, v: nat)
    requires s != [] && forall i :: 0 <= i < |s| ==> s[i] == v
    ensures Dedup(s) == [v]
  {
    var init := s[..|s| - 1];
    if init != [] {
      DedupOfConstant(init, v);
    }
  }

  /** Sorts `a` in place into ascending order (`std::sort`). */
  method SortVersions(a: array<nat>)
    modifies a
    ensures Ascending(a[..])
    ensures multiset(a[..]) == multiset(old(a[..]))
  {
    var i := 0;
    while i < a.Length
      invariant 0 <= i <= a.Length
      invariant Ascending(a[..i])
      invariant multiset(a[..]) == multiset(old(a[..]))
    {
      Sink(a, i);
      i := i + 1;
    }
  }

  /** `a[..i]` is ascending except at `j`, and `a[j]` is below everything after
      it up to `i`. */
  ghost predicate SinkingAt(a: seq<nat>, i: nat, j: nat)
    requires j <= i < |a|
  {
    (forall k, l :: 0 <= k < l <= i && k != j && l != j ==> a[k] <= a[l])
    && (forall l :: j < l <= i ==> a[j] < a[l])
  }

  /** Moves `a[i]` down into the ascending prefix `a[..i]`. */
  method Sink(a: array<nat>, i: nat)
    requires i < a.Length && Ascending(a[..i])
    modifies a
    ensures Ascending(a[..i + 1])
    ensures multiset(a[..]) == multiset(old(a[..]))
  {
    var j := i;
    while j > 0 && a[j - 1] > a[j]
      invariant 0 <= j <= i
      invariant SinkingAt(a[..], i, j)
      invariant multiset(a[..]) == multiset(old(a[..]))
    {
      ghost var s := a[..];
      a[j - 1], a[j] := a[j], a[j - 1];
      assert a[..] == s[j - 1 := s[j]][j := s[j - 1]];
      j := j - 1;
    }
  }

  /** `LmdbLexer::supportedVersions`: the introducing versions of the commands,
      each once, in ascending order; for the LMDB table, just the undefined
      version. */
  method SupportedVersions() returns (result: seq<nat>)
    ensures StrictlyAscending(result)
    ensures forall v :: v in result <==> v in Sinces(LMDB_COMMANDS)
    ensures result == [UNDEFINED_SINCE]
  {
    var vs := DistinctVersions(LMDB_COMMANDS);
    var a := new nat[|vs|](k requires 0 <= k < |vs| => vs[k]);
    assert a[..] == vs;
    SortVersions(a);
    result := a[..];
    SortedDistinct(result, Sinces(LMDB_COMMANDS));
    LmdbDistinctVersions();
    SingletonPermutation(result, UNDEFINED_SINCE);
  }

  /** The collecting loop of `supportedVersions` over any table: each
      command's version is appended unless a linear search of what was
      collected so far finds it. */
  method DistinctVersions(table: seq<CommandInfo>) returns (vs: seq<nat>)
    ensures vs == Dedup(Sinces(table))
  {
    ghost var sinces := Sinces(table);
    vs := [];
    var i := 0;
    while i < |table|
      invariant 0 <= i <= |table|
      invariant vs == Dedup(sinces[..i])
    {
      var since := table[i].since;
      var neededInsert := true;
      var j := 0;
      while j < |vs|
        invariant 0 <= j <= |vs|
        invariant neededInsert
        invariant forall k :: 0 <= k < j ==> vs[k] != since
      {
        if vs[j] == since {
          neededInsert := false;
          break;
        }
        j := j + 1;
      }
      assert neededInsert <==> since !in vs;
      DedupStep(sinces, i);
      if neededInsert {
        vs := vs + [since];
      }
      i := i + 1;
    }
    assert sinces[..i] == sinces;
  }

  /** De-duplicating one more value adds it unless it was already there. */
  lemma DedupStep(s: seq<nat>, i: nat)
    requires i < |s|
    ensures Dedup(s[..i + 1]) == if s[i] in Dedup(s[..i]) then Dedup(s[..i]) else Dedup(s[..i]) + [s[i]]
  {
    assert s[..i + 1][..i] == s[..i];
  }

  /** Sorting the de-duplicated values gives a strictly ascending list of
      exactly the values of `s`. */
  lemma SortedDistinct(result: seq<nat>, s: seq<nat>)
    requires Ascending(result) && multiset(result) == multiset(Dedup(s))
    ensures StrictlyAscending(result)
    ensures forall v :: v in result <==> v in s
  {
    var vs := Dedup(s);
    DedupFacts(s);
    PermutationNoDuplicates(result, vs);
    forall v
      ensures v in result <==> v in s
    {
      assert v in result <==> v in multiset(result);
      assert v in vs <==> v in multiset(vs);
    }
  }

  /** Every LMDB command has the undefined version, so the table supports that
      one version only. */
  lemma LmdbDistinctVersions()
    ensures Dedup(Sinces(LMDB_COMMANDS)) == [UNDEFINED_SINCE]
  {
    TableArity();
    DedupOfConstant(Sinces(LMDB_COMMANDS), UNDEFINED_SINCE);
  }

  /** The only arrangement of a single value is that value alone. */
  lemma SingletonPermutation(s: seq<nat>, v: nat)
    requires multiset(s) == multiset([v])
    ensures s == [v]
  {
    assert |s| == |multiset(s)| == 1;
    assert s[0] in multiset(s);
  }

  // ---------------------------------------------------------------- commands count

  /** `LmdbLexer::commandsCount`: the size of the command table, eight. */
  function CommandsCount(): (n: nat)
    ensures n == |LMDB_COMMANDS| && n == 8
  {
    |LMDB_COMMANDS|
  }

  // ---------------------------------------------------------------- auto-completion

  /** The completions the table offers for one typed word, in table order: each
      command not skipped whose name starts with the word, ignoring case, as
      `NAME?1`. */
  function TableCompletions(table: seq<CommandInfo>, skip: CommandInfo -> bool, w: string): seq<string>
  {
    if table == [] then []
    else
      var c := table[|table| - 1];
      TableCompletions(table[..|table| - 1], skip, w)
        + (if !skip(c) && StartsWithIgnoreCase(c.name, w) then [c.name + "?1"] else [])
  }

  /** `help?2` when the help keyword starts with the typed word, ignoring case. */
  function HelpCompletion(w: string): seq<string>
  {
    if StartsWithIgnoreCase(HELP, w) then [HELP + "?2"] else []
  }

  /** The completions for all typed words, word by word in context order. */
  function Completions(table: seq<CommandInfo>, skip: CommandInfo -> bool, context: seq<string>): seq<string>
  {
    if context == [] then []
    else
      var w := context[|context| - 1];
      Completions(table, skip, context[..|context| - 1]) + TableCompletions(table, skip, w) + HelpCompletion(w)
  }

  /** What one typed word makes completion offer. */
  predicate Offered(table: seq<CommandInfo>, skip: CommandInfo -> bool, w: string, x: string)
  {
    (exists j :: 0 <= j < |table| && !skip(table[j]) && StartsWithIgnoreCase(table[j].name, w)
       && x == table[j].name + "?1")
    || (StartsWithIgnoreCase(HELP, w) && x == HELP + "?2")
  }

  lemma {:induction false} TableCompletionsMembers(table: seq<CommandInfo>, skip: CommandInfo -> bool, w: string, x: string)
    ensures x in TableCompletions(table, skip, w) <==>
      exists j :: 0 <= j < |table| && !skip(table[j]) && StartsWithIgnoreCase(table[j].name, w)
        && x == table[j].name + "?1"
  {
    if table != [] {
      var init := table[..|table| - 1];
      TableCompletionsMembers(init, skip, w, x);
      assert forall j :: 0 <= j < |init| ==> init[j] == table[j];
    }
  }

  /** What one typed word adds is exactly what it offers. */
  lemma WordCompletionsMembers(table: seq<CommandInfo>, skip: CommandInfo -> bool, w: string, x: string)
    ensures x in TableCompletions(table, skip, w) + HelpCompletion(w) <==> Offered(table, skip, w, x)
  {
    TableCompletionsMembers(table, skip, w, x);
  }

  /** A completion is offered exactly when some typed word offers it: a command
      that is not skipped and whose name starts with the word, or the help
      keyword. */
  lemma {:induction false} CompletionsMembers(table: seq<CommandInfo>, skip: CommandInfo -> bool, context: seq<string>, x: string)
    ensures x in Completions(table, skip, context) <==>
      exists i :: 0 <= i < |context| && Offered(table, skip, context[i], x)
  {
    if context != [] {
      var n := |context| - 1;
      var init := context[..n];
      var w := context[n];
      var done := Completions(table, skip, init);
      var more := TableCompletions(table, skip, w) + HelpCompletion(w);
      assert Completions(table, skip, context) == done + more;
      CompletionsMembers(table, skip, init, x);
      WordCompletionsMembers(table, skip, w, x);
      if x in done {
        var i :| 0 <= i < |init| && Offered(table, skip, init[i], x);
        assert init[i] == context[i];
      } else if x in more {
        assert Offered(table, skip, context[n], x);
      } else {
        forall i | 0 <= i < |context|
          ensures !Offered(table, skip, context[i], x)
        {
          if i < n {
            assert init[i] == context[i];
          }
        }
      }
    }
  }

  lemma TableCompletionsStep(table: seq<CommandInfo>, skip: CommandInfo -> bool, w: string, k: nat)
    requires k < |table|
    ensures TableCompletions(table[..k + 1], skip, w) == TableCompletions(table[..k], skip, w)
      + (if !skip(table[k]) && StartsWithIgnoreCase(table[k].name, w) then [table[k].name + "?1"] else [])
  {
    assert table[..k + 1][..k] == table[..k];
  }

  lemma CompletionsStep(table: seq<CommandInfo>, skip: CommandInfo -> bool, context: seq<string>, i: nat)
    requires i < |context|
    ensures Completions(table, skip, context[..i + 1]) == Completions(table, skip, context[..i])
      + TableCompletions(table, skip, context[i]) + HelpCompletion(context[i])
  {
    assert context[..i + 1][..i] == context[..i];
  }

  /** `LmdbApi::updateAutoCompletionList`: appends to `list` the completions of
      every typed word; what `list` held before is kept as it was. Which
      commands the version filter skips is given by `skip`. */
  method UpdateAutoCompletionList(context: seq<string>, list: seq<string>, skip: CommandInfo -> bool)
    returns (list': seq<string>)
    ensures list' == list + Completions(LMDB_COMMANDS, skip, context)
    ensures list'[..|list|] == list
  {
    list' := AppendCompletions(LMDB_COMMANDS, context, list, skip);
  }

  /** The loops of `updateAutoCompletionList`, over any command table: one pass
      over `table` per typed word, in context order. */
  method AppendCompletions(table: seq<CommandInfo>, context: seq<string>, list: seq<string>,
                           skip: CommandInfo -> bool)
    returns (list': seq<string>)
    ensures list' == list + Completions(table, skip, context)
  {
    list' := list;
    var i := 0;
    while i < |context|
      invariant 0 <= i <= |context|
      invariant list' == list + Completions(table, skip, context[..i])
    {
      list' := AppendWordCompletions(table, list', skip, context[i]);
      CompletionsStep(table, skip, context, i);
      i := i + 1;
    }
    assert context[..i] == context;
  }

  /** The body of the loop of `updateAutoCompletionList` for one typed word
      `w`: the commands of `table` it starts, in table order, then `help`. */
  method AppendWordCompletions(table: seq<CommandInfo>, list: seq<string>, skip: CommandInfo -> bool, w: string)
    returns (list': seq<string>)
    ensures list' == list + TableCompletions(table, skip, w) + HelpCompletion(w)
  {
    list' := list;
    var k := 0;
    while k < |table|
      invariant 0 <= k <= |table|
      invariant list' == list + TableCompletions(table[..k], skip, w)
    {
      var cmd := table[k];
      TableCompletionsStep(table, skip, w, k);
      if !skip(cmd) && StartsWithIgnoreCase(cmd.name, w) {
        list' := list' + [cmd.name + "?1"];
      }
      k := k + 1;
    }
    assert table[..k] == table;
    if StartsWithIgnoreCase(HELP, w) {
      list' := list' + [HELP + "?2"];
    }
  }

  // ---------------------------------------------------------------- call tips

  /** The first command from index `k` on whose name equals `w` ignoring case. */
  function TipFrom(table: seq<CommandInfo>, w: string, k: nat): Option<CommandInfo>
    requires k <= |table|
    decreases |table| - k
  {
    if k == |table| then None
    else if EqualIgnoreCase(table[k].name, w) then Some(table[k])
    else TipFrom(table, w, k + 1)
  }

  /** The tip of the first word from index `i` on that names a command. */
  function FirstTipFrom(table: seq<CommandInfo>, words: seq<string>, i: nat): Option<CommandInfo>
    requires i <= |words|
    decreases |words| - i
  {
    if i == |words| then None
    else
      var t := TipFrom(table, words[i], 0);
      if t.Some? then t else FirstTipFrom(table, words, i + 1)
  }

  /** No tip from `k` on exactly when no command from `k` on is named like `w`. */
  lemma {:induction false} TipFromNone(table: seq<CommandInfo>, w: string, k: nat)
    requires k <= |table|
    ensures TipFrom(table, w, k).None? <==>
      forall l :: k <= l < |table| ==> !EqualIgnoreCase(table[l].name, w)
    decreases |table| - k
  {
    if k < |table| && !EqualIgnoreCase(table[k].name, w) {
      TipFromNone(table, w, k + 1);
    }
  }

  /** A tip is a command of the table named like `w`. */
  lemma {:induction false} TipFromSound(table: seq<CommandInfo>, w: string, k: nat)
    requires k <= |table|
    ensures TipFrom(table, w, k).Some? ==>
      TipFrom(table, w, k).value in table[k..] && EqualIgnoreCase(TipFrom(table, w, k).value.name, w)
    decreases |table| - k
  {
    if k < |table| && !EqualIgnoreCase(table[k].name, w) {
      TipFromSound(table, w, k + 1);
    }
  }

  /** The tip from `k` on is the first command from `k` on named like `w`. */
  lemma {:induction false} TipFromFirst(table: seq<CommandInfo>, w: string, k: nat, l: nat)
    requires k <= l < |table| && EqualIgnoreCase(table[l].name, w)
    requires forall m :: k <= m < l ==> !EqualIgnoreCase(table[m].name, w)
    ensures TipFrom(table, w, k) == Some(table[l])
    decreases l - k
  {
    if k < l {
      TipFromFirst(table, w, k + 1, l);
    }
  }

  /** In a table whose names are distinct ignoring case, the tip for a command's
      name is that command, whatever the case it was typed in. */
  lemma TipOfDistinctTable(table: seq<CommandInfo>, w: string, j: nat)
    requires forall a, b :: 0 <= a < b < |table| ==> !EqualIgnoreCase(table[a].name, table[b].name)
    requires j < |table| && EqualIgnoreCase(table[j].name, w)
    ensures TipFrom(table, w, 0) == Some(table[j])
  {
    forall m | 0 <= m < j
      ensures !EqualIgnoreCase(table[m].name, w)
    {
      assert !EqualIgnoreCase(table[m].name, table[j].name);
    }
    TipFromFirst(table, w, 0, j);
  }

  /** Every LMDB command is found by its name typed in any case. */
  lemma LmdbTipOfName(w: string, j: nat)
    requires j < |LMDB_COMMANDS| && EqualIgnoreCase(LMDB_COMMANDS[j].name, w)
    ensures TipFrom(LMDB_COMMANDS, w, 0) == Some(LMDB_COMMANDS[j])
  {
    NamesDistinctIgnoringCase();
    TipOfDistinctTable(LMDB_COMMANDS, w, j);
  }

  /** No tip exactly when no word from `i` on names a command. */
  lemma {:induction false} FirstTipNone(table: seq<CommandInfo>, words: seq<string>, i: nat)
    requires i <= |words|
    ensures FirstTipFrom(table, words, i).None? <==>
      forall p, l :: i <= p < |words| && 0 <= l < |table| ==> !EqualIgnoreCase(table[l].name, words[p])
    decreases |words| - i
  {
    if i < |words| {
      TipFromNone(table, words[i], 0);
      FirstTipNone(table, words, i + 1);
    }
  }

  /** The tip is that of the first word from `i` on that names a command. */
  lemma {:induction false} FirstTipFirst(table: seq<CommandInfo>, words: seq<string>, i: nat, p: nat)
    requires i <= p < |words| && TipFrom(table, words[p], 0).Some?
    requires forall q :: i <= q < p ==> TipFrom(table, words[q], 0).None?
    ensures FirstTipFrom(table, words, i) == TipFrom(table, words[p], 0)
    decreases p - i
  {
    if i < p {
      FirstTipFirst(table, words, i + 1, p);
    }
  }

  /** `LmdbApi::callTips`: the tip of the first word, the last word excluded,
      that equals a command name ignoring case, or no tip. The context must not
      be empty. A tip is represented by the command it is made for. */
  method CallTips(context: seq<string>) returns (tips: seq<CommandInfo>)
    requires |context| > 0
    ensures var t := FirstTipFrom(LMDB_COMMANDS, context[..|context| - 1], 0);
      tips == if t.Some? then [t.value] else []
  {
    var table := LMDB_COMMANDS;
    var words := context[..|context| - 1];
    var i := 0;
    while i < |words|
      invariant 0 <= i <= |words|
      invariant FirstTipFrom(table, words, 0) == FirstTipFrom(table, words, i)
    {
      var val := words[i];
      var k := 0;
      while k < |table|
        invariant 0 <= k <= |table|
        invariant TipFrom(table, val, 0) == TipFrom(table, val, k)
      {
        var cmd := table[k];
        if EqualIgnoreCase(cmd.name, val) {
          return [cmd];
        }
        k := k + 1;
      }
      i := i + 1;
    }
    return [];
  }

  // ---------------------------------------------------------------- painting commands

  /** A styling request: `length` characters from `pos` get `style`. */
  datatype Span = Span(pos: int, length: nat, style: nat)

  /** `w` occurs at `q` in `s`, ignoring case, compared character by character. */
  predicate MatchAt(s: string, w: string, q: int)
  {
    0 <= q && q + |w| <= |s| && forall k :: 0 <= k < |w| ==> LowerChar(s[q + k]) == LowerChar(w[k])
  }

  /** A match is the text at `q` equal to `w` ignoring case. */
  lemma MatchAtIgnoresCase(s: string, w: string, q: int)
    requires 0 <= q && q + |w| <= |s|
    ensures MatchAt(s, w, q) <==> EqualIgnoreCase(s[q..q + |w|], w)
  {
    var t := s[q..q + |w|];
    assert forall k :: 0 <= k < |w| ==> Lower(t)[k] == LowerChar(s[q + k]) && Lower(w)[k] == LowerChar(w[k]);
  }

  /** `QString::indexOf(w, from, Qt::CaseInsensitive)`: the first position from
      `from` on where `w` occurs, or -1. */
  function IndexOfIgnoreCase(s: string, w: string, from: nat): (p: int)
    ensures p == -1 || (from <= p && p + |w| <= |s|)
    decreases |s| - from
  {
    if from + |w| > |s| then -1
    else if MatchAt(s, w, from) then from
    else IndexOfIgnoreCase(s, w, from + 1)
  }

  /** No match of `w` in `s` at any position from `lo` up to, not including, `hi`. */
  ghost predicate NoMatchIn(s: string, w: string, lo: int, hi: int)
  {
    forall q :: lo <= q < hi ==> !MatchAt(s, w, q)
  }

  /** The search finds the first match from `from` on, or reports -1 when there
      is none. */
  lemma {:induction false} IndexOfIgnoreCaseFirst(s: string, w: string, from: nat)
    ensures var p := IndexOfIgnoreCase(s, w, from);
      (p == -1 ==> NoMatchIn(s, w, from, |s| + 1))
      && (p != -1 ==> MatchAt(s, w, p) && NoMatchIn(s, w, from, p))
    decreases |s| - from
  {
    if from + |w| <= |s| && !MatchAt(s, w, from) {
      IndexOfIgnoreCaseFirst(s, w, from + 1);
    }
  }

  /** The positions a search for `w` reports when every search resumes where
      the previous match ended. */
  function Occurrences(s: string, w: string, from: nat): seq<nat>
    requires w != [] && from <= |s|
    decreases |s| - from
  {
    var p := IndexOfIgnoreCase(s, w, from);
    if p == -1 then [] else [p as nat] + Occurrences(s, w, p + |w|)
  }

  /** Every reported position is a match from `from` on. */
  lemma {:induction false} OccurrencesSound(s: string, w: string, from: nat)
    requires w != [] && from <= |s|
    ensures forall q :: q in Occurrences(s, w, from) ==> from <= q && MatchAt(s, w, q)
    decreases |s| - from
  {
    var p := IndexOfIgnoreCase(s, w, from);
    if p != -1 {
      IndexOfIgnoreCaseFirst(s, w, from);
      var next: nat := p + |w|;
      var rest := Occurrences(s, w, next);
      OccurrencesSound(s, w, next);
      assert Occurrences(s, w, from) == [p as nat] + rest;
    }
  }

  /** Reported positions ascend, each at least the length of `w` after the
      previous one, so no two reported matches overlap. */
  lemma {:induction false} OccurrencesApart(s: string, w: string, from: nat)
    requires w != [] && from <= |s|
    ensures forall q :: q in Occurrences(s, w, from) ==> from <= q
    ensures forall k :: 0 <= k < |Occurrences(s, w, from)| - 1 ==>
      Occurrences(s, w, from)[k] + |w| <= Occurrences(s, w, from)[k + 1]
    decreases |s| - from
  {
    var p := IndexOfIgnoreCase(s, w, from);
    if p != -1 {
      var next: nat := p + |w|;
      var rest := Occurrences(s, w, next);
      OccurrencesApart(s, w, next);
      var o := [p as nat] + rest;
      assert Occurrences(s, w, from) == o;
      forall k | 0 <= k < |o| - 1
        ensures o[k] + |w| <= o[k + 1]
      {
        assert o[k + 1] == rest[k] && rest[k] in rest;
        if k > 0 {
          assert o[k] == rest[k - 1];
        }
      }
    }
  }

  /** No match is missed: before the first reported position, between the end
      of one and the next, and after the last, `w` does not occur. */
  lemma {:induction false} OccurrencesGaps(s: string, w: string, from: nat)
    requires w != [] && from <= |s|
    ensures var o := Occurrences(s, w, from);
      (|o| == 0 ==> NoMatchIn(s, w, from, |s| + 1))
      && (|o| > 0 ==> NoMatchIn(s, w, from, o[0]) && NoMatchIn(s, w, o[|o| - 1] + |w|, |s| + 1))
      && (forall k :: 0 <= k < |o| - 1 ==> NoMatchIn(s, w, o[k] + |w|, o[k + 1]))
    decreases |s| - from
  {
    var p := IndexOfIgnoreCase(s, w, from);
    IndexOfIgnoreCaseFirst(s, w, from);
    if p != -1 {
      var next: nat := p + |w|;
      var rest := Occurrences(s, w, next);
      OccurrencesGaps(s, w, next);
      var o := [p as nat] + rest;
      assert Occurrences(s, w, from) == o;
      assert o[|o| - 1] == if rest == [] then p else rest[|rest| - 1];
      forall k | 0 <= k < |o| - 1
        ensures NoMatchIn(s, w, o[k] + |w|, o[k + 1])
      {
        if k > 0 {
          assert o[k] == rest[k - 1] && o[k + 1] == rest[k];
        }
      }
    }
  }

  /** The styling requests for the reported positions of a word of `length`
      characters in a text that starts at `start`. */
  function SpansAt(start: int, ps: seq<nat>, length: nat): (r: seq<Span>)
    ensures |r| == |ps|
    ensures forall k :: 0 <= k < |ps| ==> r[k] == Span(start + ps[k], length, COMMAND_STYLE)
  {
    if ps == [] then [] else [Span(start + ps[0], length, COMMAND_STYLE)] + SpansAt(start, ps[1..], length)
  }

  /** The styling requests for all commands of `table`, command by command. */
  function PaintSpec(table: seq<CommandInfo>, source: string, start: int): seq<Span>
    requires forall c :: c in table ==> c.name != []
  {
    if table == [] then []
    else
      var w := table[|table| - 1].name;
      PaintSpec(table[..|table| - 1], source, start) + SpansAt(start, Occurrences(source, w, 0), |w|)
  }

  /** `sp` styles an occurrence of the name of `c`, ignoring case, in a text
      that starts at `start`. */
  ghost predicate Covers(c: CommandInfo, source: string, start: int, sp: Span)
  {
    sp.style == COMMAND_STYLE && sp.length == |c.name| && MatchAt(source, c.name, sp.pos - start)
  }

  /** A request for the reported positions styles a reported position, with
      the given length and the command style. */
  lemma SpansAtMember(start: int, ps: seq<nat>, length: nat, sp: Span)
    requires sp in SpansAt(start, ps, length)
    ensures sp.length == length && sp.style == COMMAND_STYLE && sp.pos - start in ps
  {
    var r := SpansAt(start, ps, length);
    var k :| 0 <= k < |r| && r[k] == sp;
    assert ps[k] in ps;
  }

  /** Every styling request covers an occurrence of a command name of the
      table, with the command style. */
  lemma {:induction false} PaintSpecSound(table: seq<CommandInfo>, source: string, start: int)
    requires forall c :: c in table ==> c.name != []
    ensures forall sp :: sp in PaintSpec(table, source, start) ==>
      exists j :: 0 <= j < |table| && Covers(table[j], source, start, sp)
  {
    if table != [] {
      var init := table[..|table| - 1];
      var c := table[|table| - 1];
      PaintSpecSound(init, source, start);
      OccurrencesSound(source, c.name, 0);
      var o := Occurrences(source, c.name, 0);
      var head := PaintSpec(init, source, start);
      assert PaintSpec(table, source, start) == head + SpansAt(start, o, |c.name|);
      forall sp | sp in head + SpansAt(start, o, |c.name|)
        ensures exists j :: 0 <= j < |table| && Covers(table[j], source, start, sp)
      {
        if sp in head {
          var j :| 0 <= j < |init| && Covers(init[j], source, start, sp);
          assert table[j] == init[j];
        } else {
          SpansAtMember(start, o, |c.name|, sp);
          assert Covers(table[|table| - 1], source, start, sp);
        }
      }
    }
  }

  /** One search step: the requests for the matches from `index` on are the
      request for the first one, at `p`, followed by those from its end on;
      `acc` is what was requested before. */
  lemma PaintStep(source: string, word: string, index: nat, start: int, p: nat, next: nat, acc: seq<Span>)
    requires word != [] && index <= |source|
    requires p == IndexOfIgnoreCase(source, word, index) && next == p + |word|
    ensures index < next <= |source|
    ensures acc + SpansAt(start, Occurrences(source, word, index), |word|)
      == (acc + [Span(start + p, |word|, COMMAND_STYLE)]) + SpansAt(start, Occurrences(source, word, next), |word|)
  {
    OccurrencesStep(source, word, index, p, next);
    SpansAtCons(start, p, Occurrences(source, word, next), |word|, acc);
  }

  /** A search that finds `p` reports `p`, then what the search resumed after
      the match reports. */
  lemma {:induction false} OccurrencesStep(s: string, w: string, from: nat, p: nat, next: nat)
    requires w != [] && from <= |s|
    requires p == IndexOfIgnoreCase(s, w, from) && next == p + |w|
    ensures from < next <= |s|
    ensures Occurrences(s, w, from) == [p] + Occurrences(s, w, next)
  {
    assert Occurrences(s, w, from) == [p as nat] + Occurrences(s, w, next);
  }

  lemma {:induction false} SpansAtCons(start: int, p: nat, rest: seq<nat>, length: nat, acc: seq<Span>)
    ensures acc + SpansAt(start, [p] + rest, length)
      == (acc + [Span(start + p, length, COMMAND_STYLE)]) + SpansAt(start, rest, length)
  {
    assert ([p] + rest)[1..] == rest;
  }

  /** `LmdbLexer::paintCommands`: for each command of the table in turn, the
      styling requests for its name wherever a search that resumes after each
      match finds it in `source`, ignoring case, shifted by `start`. */
  method PaintCommands(source: string, start: int) returns (spans: seq<Span>)
    ensures spans == PaintSpec(LMDB_COMMANDS, source, start)
  {
    NamesNonEmpty();
    spans := PaintTable(LMDB_COMMANDS, source, start);
  }

  /** The loop of `paintCommands` over any table of commands with non-empty
      names. */
  method PaintTable(table: seq<CommandInfo>, source: string, start: int) returns (spans: seq<Span>)
    requires forall c :: c in table ==> c.name != []
    ensures spans == PaintSpec(table, source, start)
  {
    spans := [];
    var i := 0;
    while i < |table|
      invariant 0 <= i <= |table|
      invariant spans == PaintSpec(table[..i], source, start)
    {
      spans := PaintWord(source, table[i].name, start, spans);
      assert table[..i + 1][..i] == table[..i];
      i := i + 1;
    }
    assert table[..i] == table;
  }

  /** The search loop of `paintCommands` for one command name `word`: appends
      the requests for its matches, each search resuming after the previous
      match. */
  method PaintWord(source: string, word: string, start: int, spans: seq<Span>) returns (spans': seq<Span>)
    requires word != []
    ensures spans' == spans + SpansAt(start, Occurrences(source, word, 0), |word|)
  {
    spans' := spans;
    var index := 0;
    var begin := IndexOfIgnoreCase(source, word, index);
    while begin != -1
      invariant 0 <= index <= |source|
      invariant begin == IndexOfIgnoreCase(source, word, index)
      invariant spans' + SpansAt(start, Occurrences(source, word, index), |word|)
             == spans + SpansAt(start, Occurrences(source, word, 0), |word|)
      decreases |source| - index
    {
      var span := Span(start + begin, |word|, COMMAND_STYLE);
      var next := begin + |word|;
      PaintStep(source, word, index, start, begin, next, spans');
      index := next;
      spans' := spans' + [span];
      begin := IndexOfIgnoreCase(source, word, index);
    }
  }
}
