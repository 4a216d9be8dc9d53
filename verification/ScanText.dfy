/** The library string functions the scan commands are read with. */
module ScanText {
  import opened Basics

  type Text = seq<byte>

  const SPACE: byte := 32
  const TAB: byte := 9
  const NEWLINE: byte := 10
  const ZERO: byte := 48
  const PLUS: byte := 43
  const MINUS: byte := 45

  function Bytes(s: string): (b: Text)
    ensures |b| == |s|
  {
    seq(|s|, i requires 0 <= i < |s| => s[i] as int % 256)
  }

  // ----- strtok over " \t\n"

  predicate Delimiter(c: byte) {
    c == SPACE || c == TAB || c == NEWLINE
  }

  function SkipDelimiters(s: Text): (r: Text)
    ensures |r| <= |s|
    ensures r != [] ==> !Delimiter(r[0])
  {
    if s != [] && Delimiter(s[0]) then SkipDelimiters(s[1..]) else s
  }

  function TokenLength(s: Text): (n: nat)
    ensures n <= |s|
    ensures s != [] && !Delimiter(s[0]) ==> n > 0
    ensures forall i | 0 <= i < n :: !Delimiter(s[i])
    ensures n < |s| ==> Delimiter(s[n])
  {
    if s == [] || Delimiter(s[0]) then 0 else 1 + TokenLength(s[1..])
  }

  function Tokens(s: Text): seq<Text>
    decreases |s|
  {
    var r := SkipDelimiters(s);
    if r == [] then [] else [r[..TokenLength(r)]] + Tokens(r[TokenLength(r)..])
  }

  // ----- strstr

  predicate OccursAt(s: Text, pattern: Text, i: nat) {
    i + |pattern| <= |s| && s[i..i + |pattern|] == pattern
  }

  /** The index of the first occurrence. */
  function FindIn(s: Text, pattern: Text, i: nat): (r: Option<nat>)
    ensures r.Some? ==> i <= r.value && OccursAt(s, pattern, r.value)
    ensures forall k :: i <= k && (r.None? || k < r.value) ==> !OccursAt(s, pattern, k)
    decreases |s| - i
  {
    if |s| < i then None
    else if OccursAt(s, pattern, i) then Some(i)
    else FindIn(s, pattern, i + 1)
  }

  /** What follows the first occurrence, as in strstr(s, p) + strlen(p). */
  function After(s: Text, pattern: Text): (r: Option<Text>)
    ensures r.Some? ==> |pattern| + |r.value| <= |s|
  {
    var i := FindIn(s, pattern, 0);
    if i.None? then None else Some(s[i.value + |pattern|..])
  }

  // ----- atoi

  predicate IsSpace(c: byte) {
    c == SPACE || TAB <= c <= 13
  }

  predicate Digit(c: byte) {
    ZERO <= c <= 57
  }

  function Digits(s: Text, acc: int): int {
    if s == [] || !Digit(s[0]) then acc else Digits(s[1..], 10 * acc + (s[0] - ZERO))
  }

  function Atoi(s: Text): int {
    if s == [] then 0
    else if IsSpace(s[0]) then Atoi(s[1..])
    else if s[0] == MINUS then -Digits(s[1..], 0)
    else if s[0] == PLUS then Digits(s[1..], 0)
    else Digits(s, 0)
  }
}
