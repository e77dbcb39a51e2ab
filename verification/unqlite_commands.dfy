/** The Unqlite driver's command translators: how a structured key command
    becomes the command line the driver then executes, and the text of the
    `KEYS` request that loads the content of the database. */
module UnqliteCommands {
  import opened Common
  import opened Text
  import opened Values
  import opened UnqliteStore

  /** What a translator gives back: its error, and the command line it left in
      `cmdstring`. */
  datatype Translation = Translation(err: Option<Error>, cmdstring: string)

  /** `commandDeleteImpl`: `DEL <key>`. */
  function CommandDelete(key: NDbKValue): Translation
  {
    Translation(None, "DEL " + key.key)
  }

  /** `commandLoadImpl`: `GET <key>`. */
  function CommandLoad(key: NDbKValue): Translation
  {
    Translation(None, "GET " + key.key)
  }

  /** `commandCreateImpl`: `PUT <key> <value>`, the value rendered with items
      separated by one space. */
  function CommandCreate(key: NDbKValue, value: Value): Translation
  {
    Translation(None, "PUT " + key.key + " " + Render(value, " "))
  }

  /** `commandChangeTTLImpl`: Unqlite keys have no time to live; the request is
      refused and `cmdstring` is left as it was. `projectTitle` is the product
      name the build defines and `typeName` the name of the connection type. */
  function CommandChangeTtl(key: NDbKValue, ttl: int, cmdstring: string, projectTitle: string, typeName: string): Translation
  {
    Translation(Some(Fail("Sorry, but now " + projectTitle + " not supported change ttl command for " + typeName + ".")),
                cmdstring)
  }

  // ---------------------------------------------------------------- what the translations run

  /** The words of `V k` for a one-word key `k`. */
  lemma ArgvOfTwo(verb: string, k: string)
    requires IsWord(verb) && IsWord(k)
    ensures Argv(verb + " " + k) == [verb, k]
  {
    WordsCons(verb, k);
    WordsOfWord(k);
  }

  /** The words of `V k v` for one-word `k` and `v`. */
  lemma ArgvOfThree(verb: string, k: string, v: string)
    requires IsWord(verb) && IsWord(k) && IsWord(v)
    ensures Argv(verb + " " + k + " " + v) == [verb, k, v]
  {
    var t2 := k + " " + v;
    var t1 := verb + " " + t2;
    WordsOfWord(v);
    WordsCons(k, v);
    WordsCons(verb, t2);
    assert Words(t1) == [verb, k, v];
    assert verb + " " + k + " " + v == t1;
  }

  /** The words of `V k a b` for one-word `k`, `a` and `b`. */
  lemma ArgvOfFour(verb: string, k: string, a: string, b: string)
    requires IsWord(verb) && IsWord(k) && IsWord(a) && IsWord(b)
    ensures Argv(verb + " " + k + " " + (a + " " + b)) == [verb, k, a, b]
  {
    var t3 := a + " " + b;
    var t2 := k + " " + t3;
    var t1 := verb + " " + t2;
    WordsOfWord(b);
    WordsCons(a, b);
    WordsCons(k, t3);
    WordsCons(verb, t2);
    assert Words(t1) == [verb, k, a, b];
    assert verb + " " + k + " " + t3 == t1;
  }

  /** The delete command of a stored one-word key, run on an open store,
      removes that key and only that key. */
  lemma CommandDeleteDeletes(db: Store, key: NDbKValue, native: Native, statsText: string)
    requires Valid(db) && IsWord(key.key) && key.key in db.vals && !native.fail
    ensures CommandDelete(key).err.None?
    ensures var o := Execute(true, db, Argv(CommandDelete(key).cmdstring), native, statsText);
      && o == Outcome(Delete(db, key.key), None, Some(StringValue("DELETED")), true)
      && o.db.vals.Keys == db.vals.Keys - {key.key}
  {
    assert CommandDelete(key).cmdstring == "DEL" + " " + key.key;
    ArgvOfTwo("DEL", key.key);
    var argv := Argv(CommandDelete(key).cmdstring);
    assert argv == ["DEL", key.key];
    DelCommand(true, db, key.key, native, statsText);
    DeleteKeys(db, key.key);
  }

  /** The load command of a stored one-word key returns its value. */
  lemma CommandLoadLoads(db: Store, key: NDbKValue, native: Native, statsText: string)
    requires Valid(db) && IsWord(key.key) && key.key in db.vals && !native.fail
    ensures CommandLoad(key).err.None?
    ensures Execute(true, db, Argv(CommandLoad(key).cmdstring), native, statsText)
         == Outcome(db, None, Some(StringValue(db.vals[key.key])), true)
  {
    assert CommandLoad(key).cmdstring == "GET" + " " + key.key;
    ArgvOfTwo("GET", key.key);
    var argv := Argv(CommandLoad(key).cmdstring);
    assert argv == ["GET", key.key];
    GetCommand(true, db, key.key, native, statsText);
  }

  /** The create command of a one-word key and a one-word string value stores
      that value, and loading the key afterwards returns it. */
  lemma CommandCreateStores(db: Store, key: NDbKValue, s: string, n1: Native, n2: Native, statsText: string)
    requires Valid(db) && IsWord(key.key) && IsWord(s) && !n1.fail && !n2.fail
    ensures CommandCreate(key, StringValue(s)).err.None?
    ensures var o := Execute(true, db, Argv(CommandCreate(key, StringValue(s)).cmdstring), n1, statsText);
      && o == Outcome(Put(db, key.key, s), None, Some(StringValue("STORED")), true)
      && Execute(true, o.db, Argv(CommandLoad(key).cmdstring), n2, statsText).child == Some(StringValue(s))
  {
    assert CommandCreate(key, StringValue(s)).cmdstring == "PUT" + " " + key.key + " " + s;
    assert CommandLoad(key).cmdstring == "GET" + " " + key.key;
    ArgvOfThree("PUT", key.key, s);
    ArgvOfTwo("GET", key.key);
    var put := Argv(CommandCreate(key, StringValue(s)).cmdstring);
    var get := Argv(CommandLoad(key).cmdstring);
    assert put == ["PUT", key.key, s] && get == ["GET", key.key];
    PutCommand(true, db, key.key, s, n1, statsText);
    PutThenGet(db, key.key, s, n1, n2, statsText);
  }

  /** An unsigned integer value is stored as its decimal text. */
  lemma CommandCreateStoresInteger(db: Store, key: NDbKValue, n: nat, native: Native, statsText: string)
    requires Valid(db) && IsWord(key.key) && !native.fail
    ensures Execute(true, db, Argv(CommandCreate(key, UIntegerValue(n)).cmdstring), native, statsText).db
         == Put(db, key.key, NatToString(n))
  {
    assert CommandCreate(key, UIntegerValue(n)).cmdstring == "PUT" + " " + key.key + " " + NatToString(n);
    NatToStringIsWord(n);
    ArgvOfThree("PUT", key.key, NatToString(n));
    var argv := Argv(CommandCreate(key, UIntegerValue(n)).cmdstring);
    assert argv == ["PUT", key.key, NatToString(n)];
    PutCommand(true, db, key.key, NatToString(n), native, statsText);
  }

  /** An array of two one-word strings renders as two words, so its create
      command has one word too many and is refused without touching the store. */
  lemma CommandCreateOfPairRefused(db: Store, key: NDbKValue, a: string, b: string, native: Native, statsText: string)
    requires Valid(db) && IsWord(key.key) && IsWord(a) && IsWord(b)
    ensures var o := Execute(true, db, Argv(CommandCreate(key, ArrayValue([StringValue(a), StringValue(b)])).cmdstring), native, statsText);
      o == Outcome(db, Some(Fail("Invalid put input argument")), None, false)
  {
    var v := ArrayValue([StringValue(a), StringValue(b)]);
    var parts := seq(2, i requires 0 <= i < 2 => Render(v.items[i], " "));
    assert parts == [a, b];
    assert Join([b], " ") == b;
    assert Join([a, b], " ") == a + " " + Join([a, b][1..], " ");
    assert [a, b][1..] == [b];
    assert Render(v, " ") == a + " " + b;
    assert CommandCreate(key, v).cmdstring == "PUT" + " " + key.key + " " + (a + " " + b);
    ArgvOfFour("PUT", key.key, a, b);
    var argv := Argv(CommandCreate(key, v).cmdstring);
    assert argv == ["PUT", key.key, a, b];
    VerbsOfCommands();
  }

  /** A one-item array renders as its item alone, so a one-word string in an
      array is stored like the string itself. */
  lemma CommandCreateOfSingleStores(db: Store, key: NDbKValue, a: string, native: Native, statsText: string)
    requires Valid(db) && IsWord(key.key) && IsWord(a) && !native.fail
    ensures Execute(true, db, Argv(CommandCreate(key, ArrayValue([StringValue(a)])).cmdstring), native, statsText).db
         == Put(db, key.key, a)
  {
    var v := ArrayValue([StringValue(a)]);
    var parts := seq(1, i requires 0 <= i < 1 => Render(v.items[i], " "));
    assert parts == [a];
    assert Render(v, " ") == a;
    assert CommandCreate(key, v).cmdstring == "PUT" + " " + key.key + " " + a;
    ArgvOfThree("PUT", key.key, a);
    var argv := Argv(CommandCreate(key, v).cmdstring);
    assert argv == ["PUT", key.key, a];
    PutCommand(true, db, key.key, a, native, statsText);
  }

  /** The translations paste the key unquoted: a key of two words separated by a
      space gives a line with one word too many, so deleting or loading it is
      refused and the store is left as it was. */
  lemma CommandsOfSpacedKeyRefused(db: Store, a: string, b: string, native: Native, statsText: string)
    requires IsWord(a) && IsWord(b)
    ensures var key := NDbKValue(a + " " + b, None);
      && Execute(true, db, Argv(CommandDelete(key).cmdstring), native, statsText)
         == Outcome(db, Some(Fail("Invalid del input argument")), None, false)
      && Execute(true, db, Argv(CommandLoad(key).cmdstring), native, statsText)
         == Outcome(db, Some(Fail("Invalid get input argument")), None, false)
  {
    var key := NDbKValue(a + " " + b, None);
    assert CommandDelete(key).cmdstring == "DEL" + " " + a + " " + b;
    assert CommandLoad(key).cmdstring == "GET" + " " + a + " " + b;
    ArgvOfThree("DEL", a, b);
    ArgvOfThree("GET", a, b);
    assert Argv(CommandDelete(key).cmdstring) == ["DEL", a, b];
    assert Argv(CommandLoad(key).cmdstring) == ["GET", a, b];
    VerbsOfCommands();
  }

  /** The change-TTL translator always fails and leaves the command line alone. */
  lemma CommandChangeTtlRefused(key: NDbKValue, ttl: int, cmdstring: string, projectTitle: string, typeName: string)
    ensures var t := CommandChangeTtl(key, ttl, cmdstring, projectTitle, typeName);
      t.err.Some? && t.err.value.kind == EError && t.cmdstring == cmdstring
  {
  }

  // ---------------------------------------------------------------- loading the database content

  /** The `KEYS` request as the source formats it: the `uint32_t` key count
      through `%d`, that is read as a signed 32-bit value. */
  function KeysCommandAsWritten(countKeys: nat): string
    requires countKeys < 0x1_0000_0000
  {
    "KEYS a z " + IntToString(Int32Of(countKeys))
  }

  /** The `KEYS` request with the key count printed unsigned (`%u`). */
  function KeysCommand(countKeys: nat): string
  {
    "KEYS a z " + NatToString(countKeys)
  }

  /** The words of a `KEYS a z <n>` line. */
  lemma ArgvOfKeys(n: string)
    requires IsWord(n)
    ensures Argv("KEYS a z " + n) == ["KEYS", "a", "z", n]
  {
    assert IsWord("KEYS") && IsWord("a") && IsWord("z");
    ArgvOfFour("KEYS", "a", "z", n);
    assert "KEYS a z " + n == "KEYS" + " " + "a" + " " + ("z" + " " + n);
  }

  /** As written, a key count of 2^31 or more turns into a negative number on
      the command line, and `atoll` followed by the conversion to `uint64_t`
      makes it a limit near 2^64. */
  lemma KeysCommandAsWrittenLimit(countKeys: nat)
    requires countKeys < 0x1_0000_0000
    ensures var argv := Argv(KeysCommandAsWritten(countKeys));
      && |argv| == 4
      && KeysLimit(argv) == if countKeys < 0x8000_0000 then countKeys
                           else countKeys + 0xFFFF_FFFF_0000_0000
  {
    var i := Int32Of(countKeys);
    IntToStringIsWord(i);
    ArgvOfKeys(IntToString(i));
    AtollOfInt(i);
  }

  /** The inputs that show it: for every key count from 2^31 on, the limit
      `KEYS` reads back is not the count asked for but lies above 2^64 - 2^32. */
  lemma KeysCommandAsWrittenOverflows(countKeys: nat)
    requires 0x8000_0000 <= countKeys < 0x1_0000_0000
    ensures |Argv(KeysCommandAsWritten(countKeys))| == 4
    ensures KeysLimit(Argv(KeysCommandAsWritten(countKeys))) != countKeys
    ensures KeysLimit(Argv(KeysCommandAsWritten(countKeys))) >= 0xFFFF_FFFF_8000_0000
  {
    KeysCommandAsWrittenLimit(countKeys);
  }

  /** With `%u` the limit `KEYS` reads back is the key count asked for. */
  lemma KeysCommandLimit(countKeys: nat)
    requires countKeys < 0x1_0000_0000_0000_0000
    ensures Argv(KeysCommand(countKeys)) == ["KEYS", "a", "z", NatToString(countKeys)]
    ensures KeysLimit(Argv(KeysCommand(countKeys))) == countKeys
  {
    NatToStringIsWord(countKeys);
    ArgvOfKeys(NatToString(countKeys));
    AtollOfNat(countKeys);
  }

  /** Loading the content runs `KEYS` over the bounds "a" and "z" with the
      key count as its limit, and changes nothing in the store. */
  lemma KeysCommandRuns(connected: bool, db: Store, countKeys: nat, native: Native, statsText: string)
    requires countKeys < 0x1_0000_0000_0000_0000
    ensures Execute(connected, db, Argv(KeysCommand(countKeys)), native, statsText)
         == if NativeFails(connected, native) then Outcome(db, Some(Fail("Keys function error: " + native.errLog)), None, true)
            else Outcome(db, None, Some(ArrayValue(StringValues(KeysSpec(db.order, "a", "z", countKeys)))), true)
  {
    KeysCommandLimit(countKeys);
    VerbsOfCommands();
  }
}
