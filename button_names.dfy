/** The "Add Year" buttons carry the index of their table in their name,
    `'line ' . $i`; the callbacks get the index back with `explode(' ', ...)`
    and use it, still a string, to build the key `'count' . $table[1]`. */
module ButtonNames {

  function Digit(d: nat): char
    requires d < 10
  {
    ('0' as int + d) as char
  }

  predicate IsDigit(c: char)
  {
    '0' <= c <= '9'
  }

  /** PHP's conversion of a non-negative integer to a string: its decimal digits. */
  function NatToString(n: nat): (s: string)
    ensures |s| >= 1
    ensures forall i :: 0 <= i < |s| ==> IsDigit(s[i])
    ensures n >= 10 ==> s[0] != '0'
    ensures s[0] == '0' ==> n == 0 && |s| == 1
  {
    if n < 10 then [Digit(n)] else NatToString(n / 10) + [Digit(n % 10)]
  }

  /** The number a string of decimal digits denotes. */
  function DigitsValue(s: string): int
    requires forall i :: 0 <= i < |s| ==> IsDigit(s[i])
  {
    if s == [] then 0
    else DigitsValue(s[..|s| - 1]) * 10 + (s[|s| - 1] as int - '0' as int)
  }

  /** Reading back the digits of a number gives the number. */
  lemma {:induction false} DigitsRoundTrip(n: nat)
    ensures DigitsValue(NatToString(n)) == n
  {
    var s := NatToString(n);
    if n >= 10 {
      DigitsRoundTrip(n / 10);
      assert s[..|s| - 1] == NatToString(n / 10);
    }
  }

  /** Different table indices give different strings, hence different counter keys. */
  lemma NatToStringInjective(a: nat, b: nat)
    ensures NatToString(a) == NatToString(b) <==> a == b
  {
    if NatToString(a) == NatToString(b) {
      DigitsRoundTrip(a);
      DigitsRoundTrip(b);
    }
  }

  /** The position of the first space in `s`. */
  function FirstSpace(s: string): (k: nat)
    requires ' ' in s
    ensures k < |s| && s[k] == ' ' && ' ' !in s[..k]
  {
    if s[0] == ' ' then 0
    else
      assert s == [s[0]] + s[1..];
      var k := FirstSpace(s[1..]);
      assert s[..k + 1] == [s[0]] + s[1..][..k];
      k + 1
  }

  /** `explode(' ', s)`: the pieces of `s` between spaces, in order. */
  function Split(s: string): (parts: seq<string>)
    ensures |parts| >= 1
    ensures forall i :: 0 <= i < |parts| ==> ' ' !in parts[i]
    ensures ' ' !in s ==> parts == [s]
    decreases |s|
  {
    if ' ' !in s then [s]
    else
      var k := FirstSpace(s);
      [s[..k]] + Split(s[k + 1..])
  }

  /** `implode(' ', parts)`. */
  function Join(parts: seq<string>): string
    requires |parts| >= 1
  {
    if |parts| == 1 then parts[0] else parts[0] + " " + Join(parts[1..])
  }

  /** Splitting loses nothing: joining the pieces with spaces gives `s` back. */
  lemma {:induction false} SplitJoin(s: string)
    ensures Join(Split(s)) == s
    decreases |s|
  {
    if ' ' in s {
      var k := FirstSpace(s);
      var tail := s[k + 1..];
      var rest := Split(tail);
      SplitJoin(tail);
      var parts := [s[..k]] + rest;
      assert Split(s) == parts;
      assert |parts| > 1 && parts[0] == s[..k] && parts[1..] == rest;
      assert Join(parts) == s[..k] + " " + Join(rest);
      SpaceSplitsAt(s, k);
    }
  }

  lemma SpaceSplitsAt(s: string, k: nat)
    requires k < |s| && s[k] == ' '
    ensures s[..k] + " " + s[k + 1..] == s
  {
    assert s[k..] == [s[k]] + s[k + 1..];
    assert s == s[..k] + s[k..];
  }

  /** A space after a space-free prefix separates exactly that prefix. */
  lemma SplitAfterWord(a: string, b: string)
    requires ' ' !in a
    ensures Split(a + " " + b) == [a] + Split(b)
  {
    var s := a + " " + b;
    assert s[|a|] == ' ';
    var k := FirstSpace(s);
    assert s[..|a|] == a;
    assert s[..k] == a && s[k + 1..] == b;
  }

  /** The name of the "Add Year" button of table `i`. */
  function ButtonName(i: nat): (name: string)
    ensures Split(name) == ["line", NatToString(i)]
  {
    var digits := NatToString(i);
    assert forall k :: 0 <= k < |digits| ==> digits[k] != ' ';
    SplitAfterWord("line", digits);
    assert "line" + " " + digits == "line " + digits;
    "line " + digits
  }

  /** `$table[1]` after `explode(' ', $name)`: the second piece of the name.
      A name without a space has no second piece; PHP reads the undefined
      index as null, which concatenates as the empty string. */
  function TableKey(name: string): (key: string)
    ensures ' ' !in key
    ensures ' ' !in name ==> key == ""
  {
    var parts := Split(name);
    if |parts| > 1 then parts[1] else ""
  }

  /** Decoding a button name gives back the table index it was built from. */
  lemma ButtonNameDecodes(i: nat)
    ensures TableKey(ButtonName(i)) == NatToString(i)
  {
    var digits := NatToString(i);
    assert forall k :: 0 <= k < |digits| ==> digits[k] != ' ';
    assert ' ' !in digits;
    SplitAfterWord("line", digits);
    assert ButtonName(i) == "line" + " " + digits;
  }

  /** The button of table `k` names the counter of table `i` exactly when i == k. */
  lemma ButtonSelectsOneTable(k: nat, i: nat)
    ensures TableKey(ButtonName(k)) == NatToString(i) <==> i == k
  {
    ButtonNameDecodes(k);
    NatToStringInjective(k, i);
  }
}
