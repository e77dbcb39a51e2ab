/** String helpers the driver and the lexer rely on: ASCII case folding (what
    `strcasecmp` and Qt's case-insensitive comparisons do on ASCII text),
    `std::string` ordering, splitting a command line into words, and the decimal
    rendering and `atoll` parsing used to pass a key count through a command line. */
module Text {

  // ---------------------------------------------------------------- case folding

  function LowerChar(c: char): char
  {
    if 'A' <= c <= 'Z' then (c as int + 32) as char else c
  }

  function Lower(s: string): string
  {
    seq(|s|, i requires 0 <= i < |s| => LowerChar(s[i]))
  }

  /** `strcasecmp(a, b) == 0`, and `QString::compare(a, b, Qt::CaseInsensitive) == 0`. */
  predicate EqualIgnoreCase(a: string, b: string)
  {
    Lower(a) == Lower(b)
  }

  /** `s.startsWith(prefix, Qt::CaseInsensitive)`. */
  predicate StartsWithIgnoreCase(s: string, prefix: string)
  {
    |prefix| <= |s| && Lower(s[..|prefix|]) == Lower(prefix)
  }

  // ---------------------------------------------------------------- ordering

  /** `a < b` on `std::string`: lexicographic, a proper prefix is smaller. */
  predicate Less(a: string, b: string)
  {
    if |a| == 0 then |b| > 0
    else if |b| == 0 then false
    else a[0] < b[0] || (a[0] == b[0] && Less(a[1..], b[1..]))
  }

  lemma {:induction false} LessIrreflexive(a: string)
    ensures !Less(a, a)
  {
    if |a| > 0 {
      LessIrreflexive(a[1..]);
    }
  }

  // ---------------------------------------------------------------- words

  /** The index of the first `c` in `s`, or `|s|` when there is none. */
  function IndexOfChar(s: string, c: char): (i: nat)
    ensures i <= |s|
  {
    if |s| == 0 || s[0] == c then 0 else 1 + IndexOfChar(s[1..], c)
  }

  lemma {:induction false} IndexOfCharFirst(s: string, c: char)
    ensures var i := IndexOfChar(s, c);
      (i < |s| ==> s[i] == c) && forall j :: 0 <= j < i ==> s[j] != c
  {
    if |s| > 0 && s[0] != c {
      IndexOfCharFirst(s[1..], c);
    }
  }

  /** The first `c` of `s` is at `i` when `s` has `c` at `i` and none before. */
  lemma {:induction false} IndexOfCharAt(s: string, c: char, i: nat)
    requires i < |s| && s[i] == c && forall j :: 0 <= j < i ==> s[j] != c
    ensures IndexOfChar(s, c) == i
  {
    if i > 0 {
      IndexOfCharAt(s[1..], c, i - 1);
    }
  }

  /** A string without `c` has no `c` to find. */
  lemma {:induction false} IndexOfCharNone(s: string, c: char)
    requires c !in s
    ensures IndexOfChar(s, c) == |s|
  {
    if |s| > 0 {
      IndexOfCharNone(s[1..], c);
    }
  }

  /** The non-empty space-separated words of a command line. */
  function Words(s: string): seq<string>
    decreases |s|
  {
    var i := IndexOfChar(s, ' ');
    if i == |s| then (if s == [] then [] else [s])
    else (if i == 0 then [] else [s[..i]]) + Words(s[i + 1..])
  }

  /** A word the driver can paste into a command line and read back: non-empty,
      without a space, and without the NUL that ends a C string. */
  predicate IsWord(w: string)
  {
    w != [] && ' ' !in w && '\0' !in w
  }

  lemma WordsOfWord(w: string)
    requires IsWord(w)
    ensures Words(w) == [w]
  {
    IndexOfCharNone(w, ' ');
  }

  lemma WordsCons(w: string, rest: string)
    requires IsWord(w)
    ensures Words(w + " " + rest) == [w] + Words(rest)
  {
    var s := w + " " + rest;
    assert s[|w|] == ' ';
    assert forall j :: 0 <= j < |w| ==> s[j] == w[j];
    IndexOfCharAt(s, ' ', |w|);
    assert s[..|w|] == w;
    assert s[|w| + 1..] == rest;
  }

  // ---------------------------------------------------------------- decimal numbers

  predicate IsDigit(c: char)
  {
    '0' <= c <= '9'
  }

  function DigitChar(d: nat): char
    requires d < 10
  {
    ('0' as int + d) as char
  }

  function DigitOf(c: char): nat
    requires IsDigit(c)
  {
    c as int - '0' as int
  }

  /** `%u`: the decimal rendering of a natural number. */
  function NatToString(n: nat): (s: string)
    ensures |s| > 0 && forall i :: 0 <= i < |s| ==> IsDigit(s[i])
  {
    if n < 10 then [DigitChar(n)] else NatToString(n / 10) + [DigitChar(n % 10)]
  }

  /** `%d`: the decimal rendering of an integer. */
  function IntToString(i: int): string
  {
    if i < 0 then "-" + NatToString(-i) else NatToString(i)
  }

  /** C's `isspace` in the "C" locale. */
  predicate IsCSpace(c: char)
  {
    c == ' ' || c == '\t' || c == '\n' || c == '\r' || c == '\U{B}' || c == '\U{C}'
  }

  function SkipSpaces(s: string): string
  {
    if |s| > 0 && IsCSpace(s[0]) then SkipSpaces(s[1..]) else s
  }

  /** The longest prefix of `s` made of decimal digits. */
  function LeadingDigits(s: string): (d: string)
    ensures |d| <= |s| && d == s[..|d|]
    ensures forall i :: 0 <= i < |d| ==> IsDigit(d[i])
  {
    if |s| > 0 && IsDigit(s[0]) then [s[0]] + LeadingDigits(s[1..]) else []
  }

  /** The value of a string of digits, read most significant digit first. */
  function DigitsValue(d: string): nat
    requires forall i :: 0 <= i < |d| ==> IsDigit(d[i])
  {
    if d == [] then 0 else 10 * DigitsValue(d[..|d| - 1]) + DigitOf(d[|d| - 1])
  }

  /** C's `atoll`: leading white space, an optional sign, then as many digits as
      follow; no digits gives 0. */
  function Atoll(s: string): int
  {
    var t := SkipSpaces(s);
    if |t| > 0 && t[0] == '-' then 0 - DigitsValue(LeadingDigits(t[1..])) as int
    else if |t| > 0 && t[0] == '+' then DigitsValue(LeadingDigits(t[1..]))
    else DigitsValue(LeadingDigits(t))
  }

  /** Conversion of a signed value to `uint64_t`: reduction modulo 2^64. */
  function Uint64Of(i: int): nat
  {
    i % 0x1_0000_0000_0000_0000
  }

  /** A `uint32_t` read back through `%d`: the same 32 bits as a signed `int`. */
  function Int32Of(u: nat): int
    requires u < 0x1_0000_0000
  {
    if u < 0x8000_0000 then u else u - 0x1_0000_0000
  }

  lemma {:induction false} LeadingDigitsOfDigits(d: string)
    requires forall i :: 0 <= i < |d| ==> IsDigit(d[i])
    ensures LeadingDigits(d) == d
  {
    if |d| > 0 {
      LeadingDigitsOfDigits(d[1..]);
    }
  }

  lemma {:induction false} DigitsValueOfNat(n: nat)
    ensures DigitsValue(NatToString(n)) == n
  {
    if n >= 10 {
      DigitsValueOfNat(n / 10);
      var s := NatToString(n);
      assert s[..|s| - 1] == NatToString(n / 10);
    }
  }

  /** Parsing the decimal rendering of a natural number gives the number back. */
  lemma AtollOfNat(n: nat)
    ensures Atoll(NatToString(n)) == n
  {
    var s := NatToString(n);
    assert SkipSpaces(s) == s;
    LeadingDigitsOfDigits(s);
    DigitsValueOfNat(n);
  }

  /** Parsing the `%d` rendering of an integer gives the integer back. */
  lemma AtollOfInt(i: int)
    ensures Atoll(IntToString(i)) == i
  {
    if i < 0 {
      var s := IntToString(i);
      var d := NatToString(-i);
      assert SkipSpaces(s) == s;
      assert s[1..] == d;
      LeadingDigitsOfDigits(d);
      DigitsValueOfNat(-i);
    } else {
      AtollOfNat(i);
    }
  }

  lemma NatToStringIsWord(n: nat)
    ensures IsWord(NatToString(n))
  {
    var s := NatToString(n);
    assert forall i :: 0 <= i < |s| ==> s[i] != ' ';
  }

  lemma IntToStringIsWord(i: int)
    ensures IsWord(IntToString(i))
  {
    var s := IntToString(i);
    NatToStringIsWord(if i < 0 then -i else i);
    if i < 0 {
      assert forall j :: 1 <= j < |s| ==> s[j] == NatToString(-i)[j - 1];
    }
  }
}
