/** The values a command produces and the result-tree node they are appended to. */
module Values {
  import opened Common
  import opened Text

  /** The kinds of `common::Value` the Unqlite driver creates: strings, unsigned
      integers and arrays. */
  datatype Value =
    | StringValue(s: string)
    | UIntegerValue(n: nat)
    | ArrayValue(items: seq<Value>)

  /** A key together with its value; `None` is a value not loaded yet (an empty
      `NValue`). */
  datatype NDbKValue = NDbKValue(key: string, value: Option<Value>)

  /** One string value per key, in order: the array node built for `KEYS`. */
  function StringValues(keys: seq<string>): seq<Value>
  {
    seq(|keys|, i requires 0 <= i < |keys| => StringValue(keys[i]))
  }

  /** One entry per key, in order, none of them with a value loaded. */
  function KeyEntries(keys: seq<string>): seq<NDbKValue>
  {
    seq(|keys|, i requires 0 <= i < |keys| => NDbKValue(keys[i], None))
  }

  /** The string items of an array as key entries without values, in order;
      items that are not strings are skipped (`ArrayValue::getString` fails on them). */
  function StringEntries(items: seq<Value>): seq<NDbKValue>
  {
    if items == [] then []
    else
      var last := items[|items| - 1];
      StringEntries(items[..|items| - 1]) + (if last.StringValue? then [NDbKValue(last.s, None)] else [])
  }

  /** An array made of string values gives back one entry per string. */
  lemma {:induction false} StringEntriesOfStrings(keys: seq<string>)
    ensures StringEntries(StringValues(keys)) == KeyEntries(keys)
  {
    if keys != [] {
      var init := keys[..|keys| - 1];
      StringEntriesOfStrings(init);
      assert StringValues(keys)[..|keys| - 1] == StringValues(init);
    }
  }

  function Join(parts: seq<string>, delim: string): string
  {
    if |parts| == 0 then ""
    else if |parts| == 1 then parts[0]
    else parts[0] + delim + Join(parts[1..], delim)
  }

  /** `common::convertToString(value, delim)`: a string as itself, an integer in
      decimal, an array as its rendered items separated by `delim`. */
  function Render(v: Value, delim: string): string
    decreases v
  {
    match v
    case StringValue(s) => s
    case UIntegerValue(n) => NatToString(n)
    case ArrayValue(items) =>
      Join(seq(|items|, i requires 0 <= i < |items| => Render(items[i], delim)), delim)
  }

  /** The children a command appends: its one value, or none. */
  function ChildList(child: Option<Value>): (cs: seq<Value>)
    ensures |cs| <= 1
    ensures child.Some? <==> |cs| == 1
  {
    if child.Some? then [child.value] else []
  }

  /** A node of the result tree: the command text it was created for and the
      values appended under it, in execution order. */
  class FastoObject {
    const text: string
    var children: seq<Value>

    constructor (text: string)
      ensures this.text == text && children == []
    {
      this.text := text;
      children := [];
    }

    method AddChildren(child: Value)
      modifies this
      ensures children == old(children) + [child]
    {
      children := children + [child];
    }
  }

  /** What one executed command line leaves in the tree once execution is over. */
  datatype CommandNode = CommandNode(text: string, children: seq<Value>)
}
