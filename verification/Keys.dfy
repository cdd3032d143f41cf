/** Identifiers as map keys: the storage keys of the Go server and the map keys of the browser. */
module Keys {
  import opened Identifiers

  // ----- Decimal numbers

  const DIGITS := "0123456789"

  function NatDecimal(n: nat): string {
    if n < 10 then [DIGITS[n]] else NatDecimal(n / 10) + [DIGITS[n % 10]]
  }

  /** The decimal text of an integer, as `fmt.Sprint` and template literals print it. */
  function IntDecimal(n: int): string {
    if n < 0 then "-" + NatDecimal(-n) else NatDecimal(n)
  }

  function DigitValue(c: char): Option<int> {
    if '0' <= c <= '9' then Some((c as int) - 48) else None
  }

  function ParseNat(s: string): Option<int> {
    if s == [] then None
    else
      var last := DigitValue(s[|s| - 1]);
      if last.None? then None
      else if |s| == 1 then last
      else
        var rest := ParseNat(s[..|s| - 1]);
        if rest.None? then None else Some(10 * rest.value + last.value)
  }

  /** `Number` on decimal integers. */
  function ParseInt(s: string): Option<int> {
    if s != [] && s[0] == '-' then
      var n := ParseNat(s[1..]);
      if n.None? then None else Some(-n.value)
    else
      ParseNat(s)
  }

  predicate DecimalChar(c: char) {
    c == '-' || '0' <= c <= '9'
  }

  lemma {:induction false} NatDecimalParses(n: nat)
    ensures ParseNat(NatDecimal(n)) == Some(n)
    ensures NatDecimal(n) != [] && NatDecimal(n)[0] != '-'
    ensures NatDecimal(n)[0] == '0' <==> n == 0
    ensures |NatDecimal(n)| == 1 <==> n < 10
    ensures forall c :: c in NatDecimal(n) ==> '0' <= c <= '9'
  {
    LastDigit(n % 10);
    if n >= 10 {
      NatDecimalParses(n / 10);
      ParseAppended(NatDecimal(n / 10), DIGITS[n % 10]);
    }
  }

  lemma LastDigit(n: nat)
    requires n < 10
    ensures DigitValue(DIGITS[n]) == Some(n) && '0' <= DIGITS[n] <= '9'
  {
  }

  lemma ParseAppended(s: string, c: char)
    requires s != [] && ParseNat(s).Some? && DigitValue(c).Some?
    ensures ParseNat(s + [c]) == Some(10 * ParseNat(s).value + DigitValue(c).value)
  {
    assert (s + [c])[..|s|] == s;
  }

  /** A text of digits without a leading zero is the decimal text of its value. */
  lemma {:induction false} DecimalCanonical(s: string)
    requires ParseNat(s).Some? && (|s| == 1 || s[0] != '0')
    ensures ParseNat(s).value >= 0 && s == NatDecimal(ParseNat(s).value)
    decreases |s|
  {
    var n, rest := |s| - 1, s[..|s| - 1];
    DigitIs(s[n]);
    assert s == rest + [s[n]];
    if n > 0 {
      assert rest[0] == s[0];
      DecimalCanonical(rest);
      NatDecimalParses(ParseNat(rest).value);
      NextDigit(ParseNat(rest).value, DigitValue(s[n]).value);
    }
  }

  lemma DigitIs(c: char)
    requires DigitValue(c).Some?
    ensures 0 <= DigitValue(c).value < 10 && DIGITS[DigitValue(c).value] == c && NatDecimal(DigitValue(c).value) == [c]
  {
    LastDigit(DigitValue(c).value);
  }

  lemma NextDigit(r: nat, d: nat)
    requires r > 0 && d < 10
    ensures NatDecimal(10 * r + d) == NatDecimal(r) + [DIGITS[d]]
  {
    assert (10 * r + d) / 10 == r && (10 * r + d) % 10 == d;
  }

  /** Printing an integer and reading it back gives the integer. */
  lemma IntDecimalParses(n: int)
    ensures ParseInt(IntDecimal(n)) == Some(n)
    ensures forall c :: c in IntDecimal(n) ==> DecimalChar(c)
  {
    NatDecimalParses(if n < 0 then -n else n);
    if n < 0 {
      assert IntDecimal(n)[1..] == NatDecimal(-n);
    }
  }

  lemma IntDecimalInjective(m: int, n: int)
    requires IntDecimal(m) == IntDecimal(n)
    ensures m == n
  {
    IntDecimalParses(m);
    IntDecimalParses(n);
  }

  // ----- Storage keys

  /** `formatID`. */
  function FormatID(id: ID): string {
    "(" + id.clientID + "," + IntDecimal(id.clock) + ")"
  }

  /** The last separator splits a text in only one way. */
  lemma LastSeparator(a: string, x: string, b: string, y: string, sep: char)
    requires a + [sep] + x == b + [sep] + y && sep !in x && sep !in y
    ensures a == b && x == y
  {
    SeparatorAt(a, x, sep, |b|);
    SeparatorAt(b, y, sep, |a|);
    var s := a + [sep] + x;
    assert a == s[..|a|] && b == s[..|b|];
    assert x == s[|a| + 1..] && y == s[|b| + 1..];
  }

  lemma SeparatorAt(a: string, x: string, sep: char, i: nat)
    requires sep !in x
    ensures i < |a + [sep] + x| && (a + [sep] + x)[i] == sep ==> i <= |a|
  {
    var s := a + [sep] + x;
    assert forall j :: |a| < j < |s| ==> s[j] == x[j - |a| - 1];
  }

  /** No two identifiers share a storage key, whatever characters the client identifiers contain. */
  lemma FormatIDInjective(a: ID, b: ID)
    requires FormatID(a) == FormatID(b)
    ensures a == b
  {
    var s, t := FormatID(a), FormatID(b);
    IntDecimalParses(a.clock);
    IntDecimalParses(b.clock);
    assert s[1..|s| - 1] == a.clientID + [','] + IntDecimal(a.clock);
    assert t[1..|t| - 1] == b.clientID + [','] + IntDecimal(b.clock);
    LastSeparator(a.clientID, IntDecimal(a.clock), b.clientID, IntDecimal(b.clock), ',');
  }

  // ----- Browser keys

  /** `ID.toKey`. */
  function ToKey(id: ID): string {
    id.clientID + ":" + IntDecimal(id.clock)
  }

  /** `split`: the parts between separators. */
  function Split(s: string, sep: char): (r: seq<string>)
    ensures r != []
  {
    if s == [] then [[]]
    else
      var rest := Split(s[1..], sep);
      if s[0] == sep then [[]] + rest else [[s[0]] + rest[0]] + rest[1..]
  }

  /** `const [clientID, auxClock] = key.split(":")`, with the clock read as a number. */
  function FromKey(key: string): Option<ID> {
    var parts := Split(key, ':');
    if |parts| < 2 then None
    else
      var clock := ParseInt(parts[1]);
      if clock.None? then None else Some(ID(parts[0], clock.value))
  }

  lemma {:induction false} SplitFirst(a: string, s: string, sep: char)
    requires sep !in a
    ensures Split(a + [sep] + s, sep) == [a] + Split(s, sep)
  {
    if a == [] {
      assert a + [sep] + s == [sep] + s && ([sep] + s)[1..] == s;
    } else {
      assert (a + [sep] + s)[1..] == a[1..] + [sep] + s;
      SplitFirst(a[1..], s, sep);
      assert [a[0]] + a[1..] == a;
    }
  }

  lemma {:induction false} SplitNone(s: string, sep: char)
    requires sep !in s
    ensures Split(s, sep) == [s]
  {
    if s != [] {
      SplitNone(s[1..], sep);
      assert [s[0]] + s[1..] == s;
    }
  }

  lemma {:induction false} SplitParts(s: string, sep: char)
    ensures sep !in Split(s, sep)[0]
  {
    if s != [] {
      SplitParts(s[1..], sep);
    }
  }

  /** Splitting a browser key gives back the identifier exactly when the client identifier has no colon. */
  lemma FromKeyRecovers(id: ID)
    ensures FromKey(ToKey(id)) == Some(id) <==> ':' !in id.clientID
  {
    IntDecimalParses(id.clock);
    if ':' in id.clientID {
      SplitParts(ToKey(id), ':');
    } else {
      SplitFirst(id.clientID, IntDecimal(id.clock), ':');
      SplitNone(IntDecimal(id.clock), ':');
    }
  }

  /** As a map key `toKey` is safe for every client identifier: no two identifiers share one. */
  lemma ToKeyInjective(a: ID, b: ID)
    requires ToKey(a) == ToKey(b)
    ensures a == b
  {
    IntDecimalParses(a.clock);
    IntDecimalParses(b.clock);
    assert ToKey(a) == a.clientID + [':'] + IntDecimal(a.clock);
    assert ToKey(b) == b.clientID + [':'] + IntDecimal(b.clock);
    LastSeparator(a.clientID, IntDecimal(a.clock), b.clientID, IntDecimal(b.clock), ':');
    IntDecimalInjective(a.clock, b.clock);
  }

  /** The two key formats on one identifier. */
  lemma KeyFormats()
    ensures FormatID(ID("ab", -120)) == "(ab,-120)" && ToKey(ID("ab", 305)) == "ab:305"
  {
    assert NatDecimal(12) == "12" && NatDecimal(120) == "120";
    assert NatDecimal(30) == "30" && NatDecimal(305) == "305";
  }
}
