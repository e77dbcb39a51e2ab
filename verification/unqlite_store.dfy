/** The Unqlite key/value store as the driver sees it through the native API, and
    the specification of one command: verb dispatch, arity checks, the native
    call and the one child appended on success. */
module UnqliteStore {
  import opened Common
  import opened Text
  import opened Values

  // ---------------------------------------------------------------- the store

  /** The database behind the native handle: its keys in cursor order and the
      value stored under each key. */
  datatype Store = Store(order: seq<string>, vals: map<string, string>)

  predicate Distinct(s: seq<string>)
  {
    forall i, j :: 0 <= i < j < |s| ==> s[i] != s[j]
  }

  /** Every key appears once in cursor order, and the cursor visits exactly the
      stored keys. */
  predicate Valid(db: Store)
  {
    && Distinct(db.order)
    && (forall k :: k in db.vals ==> k in db.order)
    && (forall k :: k in db.order ==> k in db.vals)
  }

  /** `unqlite_kv_store`: overwrites an existing key in place; a new key joins
      the end of the cursor order. */
  function Put(db: Store, key: string, value: string): (r: Store)
    ensures Valid(db) ==> Valid(r)
  {
    if key in db.vals then Store(db.order, db.vals[key := value])
    else Store(db.order + [key], db.vals[key := value])
  }

  /** `s` without `key`, the other keys keeping their order. */
  function Remove(s: seq<string>, key: string): (r: seq<string>)
    ensures forall k :: k in r <==> k in s && k != key
    ensures Distinct(s) ==> Distinct(r)
  {
    if s == [] then []
    else
      var rest := Remove(s[1..], key);
      if s[0] == key then rest
      else
        assert Distinct(s) ==> s[0] !in s[1..];
        [s[0]] + rest
  }

  /** `unqlite_kv_delete` of a stored key. */
  function Delete(db: Store, key: string): (r: Store)
    ensures Valid(db) ==> Valid(r)
  {
    Store(Remove(db.order, key), map k | k in db.vals && k != key :: db.vals[k])
  }

  /** Deleting a key removes it and only it from the stored keys. */
  lemma DeleteKeys(db: Store, key: string)
    ensures Delete(db, key).vals.Keys == db.vals.Keys - {key}
  {
  }

  lemma {:induction false} DistinctCardinality(s: seq<string>)
    requires Distinct(s)
    ensures |set k | k in s| == |s|
  {
    if s != [] {
      var init := s[..|s| - 1];
      DistinctCardinality(init);
      assert (set k | k in s) == (set k | k in init) + {s[|s| - 1]};
      assert s[|s| - 1] !in init;
    }
  }

  /** The number of entries the cursor visits is the number of stored keys. */
  lemma EntryCount(db: Store)
    requires Valid(db)
    ensures |db.order| == |db.vals|
  {
    DistinctCardinality(db.order);
    assert db.vals.Keys == set k | k in db.order;
  }

  // ---------------------------------------------------------------- bounded scan

  /** `key_start < key && key_end > key`: both bounds are strict. */
  predicate InRange(k: string, start: string, end: string)
  {
    Less(start, k) && Less(k, end)
  }

  /** The keys of `order` strictly between `start` and `end`, in cursor order. */
  function InRangeKeys(order: seq<string>, start: string, end: string): seq<string>
  {
    if order == [] then []
    else
      var last := order[|order| - 1];
      InRangeKeys(order[..|order| - 1], start, end) + (if InRange(last, start, end) then [last] else [])
  }

  function Take(s: seq<string>, n: nat): (r: seq<string>)
  {
    if |s| <= n then s else s[..n]
  }

  /** What `KEYS start end limit` returns: the first `limit` keys in cursor
      order that lie strictly between the bounds. */
  function KeysSpec(order: seq<string>, start: string, end: string, limit: nat): seq<string>
  {
    Take(InRangeKeys(order, start, end), limit)
  }

  /** `a` occurs in `b` in the same order, possibly with gaps. */
  predicate Subsequence(a: seq<string>, b: seq<string>)
  {
    a == [] ||
    (b != [] &&
     if a[|a| - 1] == b[|b| - 1] then Subsequence(a[..|a| - 1], b[..|b| - 1])
     else Subsequence(a, b[..|b| - 1]))
  }

  lemma {:induction false} SubsequencePrefix(a: seq<string>, b: seq<string>, n: nat)
    requires Subsequence(a, b) && n <= |a|
    ensures Subsequence(a[..n], b)
    decreases |b|, 1
  {
    if n < |a| {
      var b' := b[..|b| - 1];
      if a[|a| - 1] == b[|b| - 1] {
        SubsequencePrefix(a[..|a| - 1], b', n);
        assert a[..|a| - 1][..n] == a[..n];
      } else {
        SubsequencePrefix(a, b', n);
      }
      SubsequenceExtend(a[..n], b);
    } else {
      assert a[..n] == a;
    }
  }

  lemma {:induction false} SubsequenceExtend(x: seq<string>, b: seq<string>)
    requires b != [] && Subsequence(x, b[..|b| - 1])
    ensures Subsequence(x, b)
    decreases |b|, 0
  {
    if x != [] && x[|x| - 1] == b[|b| - 1] {
      SubsequencePrefix(x, b[..|b| - 1], |x| - 1);
    }
  }

  lemma {:induction false} InRangeKeysFacts(order: seq<string>, start: string, end: string)
    ensures Subsequence(InRangeKeys(order, start, end), order)
    ensures forall k :: k in InRangeKeys(order, start, end) <==> k in order && InRange(k, start, end)
  {
    if order != [] {
      var init := order[..|order| - 1];
      var last := order[|order| - 1];
      InRangeKeysFacts(init, start, end);
      var r := InRangeKeys(order, start, end);
      if InRange(last, start, end) {
        assert r[..|r| - 1] == InRangeKeys(init, start, end);
      } else if r != [] {
        assert r == InRangeKeys(init, start, end);
        SubsequenceExtend(r, order);
      }
      assert order == init + [last];
    }
  }

  lemma {:induction false} InRangeKeysPrefix(order: seq<string>, i: nat, start: string, end: string)
    requires i <= |order|
    ensures InRangeKeys(order[..i], start, end) <= InRangeKeys(order, start, end)
    decreases |order| - i
  {
    if i < |order| {
      InRangeKeysPrefix(order, i + 1, start, end);
      assert order[..i + 1][..i] == order[..i];
    } else {
      assert order[..i] == order;
    }
  }

  /** `KEYS` returns at most `limit` keys, each strictly between the bounds,
      in cursor order; when it returns fewer than `limit` it has returned every
      key between the bounds. */
  lemma KeysScanBounds(order: seq<string>, start: string, end: string, limit: nat)
    ensures var r := KeysSpec(order, start, end, limit);
      && |r| <= limit
      && (forall k :: k in r ==> InRange(k, start, end) && k in order)
      && Subsequence(r, order)
      && (|r| < limit ==> forall k :: k in order && InRange(k, start, end) ==> k in r)
  {
    var all := InRangeKeys(order, start, end);
    InRangeKeysFacts(order, start, end);
    if |all| > limit {
      SubsequencePrefix(all, order, limit);
      assert forall k :: k in all[..limit] ==> k in all;
    }
  }

  /** The bounds are strict: neither `start` nor `end` is ever reported, even
      when a key equal to one of them is stored. */
  lemma BoundsNotReported(order: seq<string>, start: string, end: string, limit: nat)
    ensures start !in KeysSpec(order, start, end, limit) && end !in KeysSpec(order, start, end, limit)
  {
    KeysScanBounds(order, start, end, limit);
    LessIrreflexive(start);
    LessIrreflexive(end);
  }

  lemma {:induction false} InRangeKeysDistinct(order: seq<string>, start: string, end: string)
    requires Distinct(order)
    ensures Distinct(InRangeKeys(order, start, end))
  {
    if order != [] {
      var init := order[..|order| - 1];
      InRangeKeysDistinct(init, start, end);
      InRangeKeysFacts(init, start, end);
      assert order[|order| - 1] !in init;
    }
  }

  /** Over a valid store `KEYS` never reports a key twice. */
  lemma KeysSpecDistinct(db: Store, start: string, end: string, limit: nat)
    requires Valid(db)
    ensures Distinct(KeysSpec(db.order, start, end, limit))
  {
    InRangeKeysDistinct(db.order, start, end);
  }

  // ---------------------------------------------------------------- one command

  /** The result of one command: the new store, the error if any, the child
      appended to the output node if any, and whether a native store call was
      made. */
  datatype Outcome = Outcome(db: Store, err: Option<Error>, child: Option<Value>, touched: bool)

  /** A native store call fails on a null handle or when the native library says so. */
  predicate NativeFails(connected: bool, native: Native)
  {
    !connected || native.fail
  }

  /** The verbs `execute_impl` dispatches on. */
  datatype Verb = InfoVerb | GetVerb | DbsizeVerb | PutVerb | DelVerb | KeysVerb

  /** The verbs in the order `execute_impl` tries them, each with its spelling. */
  const VERBS: seq<(string, Verb)> :=
    [("info", InfoVerb), ("get", GetVerb), ("dbsize", DbsizeVerb), ("put", PutVerb), ("del", DelVerb), ("keys", KeysVerb)]

  function Spelling(v: Verb): string
  {
    match v
    case InfoVerb => "info"
    case GetVerb => "get"
    case DbsizeVerb => "dbsize"
    case PutVerb => "put"
    case DelVerb => "del"
    case KeysVerb => "keys"
  }

  /** The first verb of `VERBS` from position `i` on spelled `lower`. */
  function VerbFrom(lower: string, i: nat): Option<Verb>
    decreases |VERBS| - i
  {
    if i >= |VERBS| then None
    else if lower == VERBS[i].0 then Some(VERBS[i].1)
    else VerbFrom(lower, i + 1)
  }

  /** The verb a word names, compared ignoring case, if any. */
  function VerbOf(w: string): Option<Verb>
  {
    VerbFrom(Lower(w), 0)
  }

  /** The spellings are lower case already. */
  lemma LowerOfSpellings()
    ensures forall v :: Lower(Spelling(v)) == Spelling(v)
  {
    forall v ensures Lower(Spelling(v)) == Spelling(v) {
      var s := Spelling(v);
      assert forall i :: 0 <= i < |s| ==> LowerChar(s[i]) == s[i];
    }
  }

  /** A word names verb `v` exactly when it equals the spelling of `v` ignoring
      case: what the `strcasecmp` chain of `execute_impl` decides. */
  lemma VerbOfSpelling(w: string, v: Verb)
    ensures VerbOf(w) == Some(v) <==> EqualIgnoreCase(w, Spelling(v))
  {
    LowerOfSpellings();
    var lw := Lower(w);
    assert VERBS[0].0 == Spelling(InfoVerb) && VERBS[1].0 == Spelling(GetVerb) && VERBS[2].0 == Spelling(DbsizeVerb);
    assert VERBS[3].0 == Spelling(PutVerb) && VERBS[4].0 == Spelling(DelVerb) && VERBS[5].0 == Spelling(KeysVerb);
    assert VerbFrom(lw, 5) == if lw == "keys" then Some(KeysVerb) else None;
    assert VerbFrom(lw, 3) == if lw == "put" then Some(PutVerb) else VerbFrom(lw, 4);
    assert VerbFrom(lw, 1) == if lw == "get" then Some(GetVerb) else VerbFrom(lw, 2);
  }

  /** The spellings the translators write name their verbs. */
  lemma VerbsOfCommands()
    ensures VerbOf("GET") == Some(GetVerb) && VerbOf("PUT") == Some(PutVerb) && VerbOf("DEL") == Some(DelVerb)
    ensures VerbOf("DBSIZE") == Some(DbsizeVerb) && VerbOf("KEYS") == Some(KeysVerb)
  {
    assert Lower("GET") == "get" && Lower("PUT") == "put" && Lower("DEL") == "del";
    assert Lower("DBSIZE") == "dbsize" && Lower("KEYS") == "keys";
  }

  /** The argument counts (verb included) each verb accepts: `info` at most 2,
      `get` and `del` exactly 2, `put` 3, `keys` 4, `dbsize` 1. */
  predicate ArityOk(argv: seq<string>)
    requires |argv| >= 1
  {
    var n := |argv|;
    match VerbOf(argv[0])
    case None => false
    case Some(InfoVerb) => n <= 2
    case Some(GetVerb) => n == 2
    case Some(DelVerb) => n == 2
    case Some(DbsizeVerb) => n == 1
    case Some(PutVerb) => n == 3
    case Some(KeysVerb) => n == 4
  }

  /** The limit `KEYS` reads from its fourth word: `atoll` converted to `uint64_t`. */
  function KeysLimit(argv: seq<string>): nat
    requires |argv| == 4
  {
    Uint64Of(Atoll(argv[3]))
  }

  /** One command `argv` run against the store (`execute_impl`). */
  function Execute(connected: bool, db: Store, argv: seq<string>, native: Native, statsText: string): Outcome
    requires |argv| >= 1
  {
    var verb, argc := argv[0], |argv|;
    var nativeFails := NativeFails(connected, native);
    match VerbOf(verb)
    case None => Outcome(db, Some(Fail("Not supported command: " + verb)), None, false)
    case Some(InfoVerb) =>
      if argc > 2 then Outcome(db, Some(Fail("Invalid info input argument")), None, false)
      else Outcome(db, None, Some(StringValue(statsText)), false)
    case Some(GetVerb) =>
      if argc != 2 then Outcome(db, Some(Fail("Invalid get input argument")), None, false)
      else if nativeFails || argv[1] !in db.vals then
        Outcome(db, Some(Fail("get function error: " + native.errLog)), None, true)
      else Outcome(db, None, Some(StringValue(db.vals[argv[1]])), true)
    case Some(DbsizeVerb) =>
      if argc != 1 then Outcome(db, Some(Fail("Invalid dbsize input argument")), None, false)
      else if nativeFails then Outcome(db, Some(Fail("dbsize function error: " + native.errLog)), None, true)
      else Outcome(db, None, Some(UIntegerValue(|db.order|)), true)
    case Some(PutVerb) =>
      if argc != 3 then Outcome(db, Some(Fail("Invalid put input argument")), None, false)
      else if nativeFails then Outcome(db, Some(Fail("put function error: " + native.errLog)), None, true)
      else Outcome(Put(db, argv[1], argv[2]), None, Some(StringValue("STORED")), true)
    case Some(DelVerb) =>
      if argc != 2 then Outcome(db, Some(Fail("Invalid del input argument")), None, false)
      else if nativeFails || argv[1] !in db.vals then
        Outcome(db, Some(Fail("delete function error: " + native.errLog)), None, true)
      else Outcome(Delete(db, argv[1]), None, Some(StringValue("DELETED")), true)
    case Some(KeysVerb) =>
      if argc != 4 then Outcome(db, Some(Fail("Invalid keys input argument")), None, false)
      else if nativeFails then Outcome(db, Some(Fail("Keys function error: " + native.errLog)), None, true)
      else
        var found := KeysSpec(db.order, argv[1], argv[2], KeysLimit(argv));
        Outcome(db, None, Some(ArrayValue(StringValues(found))), true)
  }

  /** What every command guarantees: a valid store stays valid; a child is
      appended exactly when the command succeeds; a failed command, and one that
      makes no native call, leave the store as it was; a wrong argument count is
      refused before any native call, and with the right count every verb but
      `info` makes one. */
  lemma ExecuteFacts(connected: bool, db: Store, argv: seq<string>, native: Native, statsText: string)
    requires |argv| >= 1
    ensures var r := Execute(connected, db, argv, native, statsText);
      && (Valid(db) ==> Valid(r.db))
      && (r.err.None? <==> r.child.Some?)
      && (r.err.Some? ==> r.db == db)
      && (!r.touched ==> r.db == db)
      && (!ArityOk(argv) ==> r.err.Some? && !r.touched)
      && (ArityOk(argv) && VerbOf(argv[0]) != Some(InfoVerb) ==> r.touched)
  {
    var r := Execute(connected, db, argv, native, statsText);
    match VerbOf(argv[0])
    case None =>
    case Some(InfoVerb) =>
    case Some(GetVerb) =>
    case Some(DbsizeVerb) =>
    case Some(PutVerb) =>
      if ArityOk(argv) && !NativeFails(connected, native) {
        assert r.db == Put(db, argv[1], argv[2]);
      }
    case Some(DelVerb) =>
      if ArityOk(argv) && !NativeFails(connected, native) && argv[1] in db.vals {
        assert r.db == Delete(db, argv[1]);
      }
    case Some(KeysVerb) =>
  }

  /** A command line as the driver's argument vector: its words, or the single
      empty verb when it has none. */
  function Argv(line: string): (argv: seq<string>)
    ensures |argv| >= 1
  {
    var w := Words(line);
    if w == [] then [""] else w
  }

  // ---------------------------------------------------------------- dispatch properties

  /** The verb is matched ignoring case: two spellings of a known verb that
      differ only in case run the same command. */
  lemma VerbIgnoresCase(connected: bool, db: Store, a: string, b: string, args: seq<string>, native: Native, statsText: string)
    requires VerbOf(a).Some? && EqualIgnoreCase(a, b)
    ensures Execute(connected, db, [a] + args, native, statsText) == Execute(connected, db, [b] + args, native, statsText)
  {
  }

  /** An unknown verb is reported by name, and nothing else happens. */
  lemma UnsupportedVerb(connected: bool, db: Store, argv: seq<string>, native: Native, statsText: string)
    requires |argv| >= 1 && VerbOf(argv[0]).None?
    ensures Execute(connected, db, argv, native, statsText)
         == Outcome(db, Some(Fail("Not supported command: " + argv[0])), None, false)
  {
  }

  /** `GET k`: the stored value, or the native error when the call fails or
      the key is not stored. */
  lemma GetCommand(connected: bool, db: Store, key: string, native: Native, statsText: string)
    ensures Execute(connected, db, ["GET", key], native, statsText)
         == if NativeFails(connected, native) || key !in db.vals
            then Outcome(db, Some(Fail("get function error: " + native.errLog)), None, true)
            else Outcome(db, None, Some(StringValue(db.vals[key])), true)
  {
    VerbsOfCommands();
  }

  /** `PUT k v`: the value stored under the key, or the native error. */
  lemma PutCommand(connected: bool, db: Store, key: string, value: string, native: Native, statsText: string)
    ensures Execute(connected, db, ["PUT", key, value], native, statsText)
         == if NativeFails(connected, native)
            then Outcome(db, Some(Fail("put function error: " + native.errLog)), None, true)
            else Outcome(Put(db, key, value), None, Some(StringValue("STORED")), true)
  {
    VerbsOfCommands();
  }

  /** `DEL k`: the key deleted, or the native error when the call fails or the
      key is not stored. */
  lemma DelCommand(connected: bool, db: Store, key: string, native: Native, statsText: string)
    ensures Execute(connected, db, ["DEL", key], native, statsText)
         == if NativeFails(connected, native) || key !in db.vals
            then Outcome(db, Some(Fail("delete function error: " + native.errLog)), None, true)
            else Outcome(Delete(db, key), None, Some(StringValue("DELETED")), true)
  {
    VerbsOfCommands();
  }

  /** A value stored by `PUT` is what `GET` then returns. */
  lemma PutThenGet(db: Store, key: string, value: string, n1: Native, n2: Native, statsText: string)
    requires Valid(db) && !n1.fail && !n2.fail
    ensures var p := Execute(true, db, ["PUT", key, value], n1, statsText);
      && p.err.None?
      && Execute(true, p.db, ["GET", key], n2, statsText).child == Some(StringValue(value))
  {
    PutCommand(true, db, key, value, n1, statsText);
    GetCommand(true, Put(db, key, value), key, n2, statsText);
  }

  /** After `DEL` of a stored key, `GET` of that key fails and every other key
      keeps its value. */
  lemma DelThenGet(db: Store, key: string, other: string, n1: Native, n2: Native, statsText: string)
    requires Valid(db) && key in db.vals && !n1.fail && other != key
    ensures var d := Execute(true, db, ["DEL", key], n1, statsText);
      && d.err.None?
      && Execute(true, d.db, ["GET", key], n2, statsText).err.Some?
      && (other in d.db.vals <==> other in db.vals)
      && (other in db.vals ==> d.db.vals[other] == db.vals[other])
  {
    DelCommand(true, db, key, n1, statsText);
    DeleteKeys(db, key);
    GetCommand(true, Delete(db, key), key, n2, statsText);
  }

  /** `DBSIZE` reports the number of stored keys. */
  lemma DbsizeCountsEntries(db: Store, native: Native, statsText: string)
    requires Valid(db) && !native.fail
    ensures Execute(true, db, ["DBSIZE"], native, statsText).child == Some(UIntegerValue(|db.vals|))
  {
    VerbsOfCommands();
    EntryCount(db);
  }
}
