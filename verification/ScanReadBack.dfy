/** Numbers and words as a caller writes them, and that the library functions read them back. */
module ScanReadBack {
  import opened Basics
  import opened ScanText

  // ----- numbers

  function DecimalNat(n: nat): (s: Text)
    ensures s != [] && forall c <- s :: 48 <= c <= 57
  {
    (if n < 10 then [] else DecimalNat(n / 10)) + [48 + n % 10]
  }

  /** A number in decimal digits, with a '-' in front if it is negative. */
  function Decimal(v: int): (s: Text)
    ensures s != [] && forall c <- s :: c == 45 || 48 <= c <= 57
  {
    if v < 0 then [45] + DecimalNat(-v) else DecimalNat(v)
  }

  lemma {:induction false} DigitsReadBack(n: nat, rest: Text)
    ensures Digits(DecimalNat(n) + rest, 0) == Digits(rest, n)
    decreases n
  {
    var last: Text := [48 + n % 10];
    assert (last + rest)[1..] == rest;
    if n < 10 {
      assert DecimalNat(n) + rest == last + rest;
    } else {
      DigitsReadBack(n / 10, last + rest);
      assert DecimalNat(n) + rest == DecimalNat(n / 10) + (last + rest);
    }
  }

  /** What may follow a number without becoming part of it. */
  predicate EndsNumber(rest: Text) {
    rest == [] || !(48 <= rest[0] <= 57)
  }

  /** White space as isspace knows it. */
  predicate Blank(c: byte) {
    c == 32 || 9 <= c <= 13
  }

  lemma AtoiAtOnce(v: int, rest: Text)
    requires EndsNumber(rest)
    ensures Atoi(Decimal(v) + rest) == v
  {
    hide Digits, DecimalNat;
    var t := Decimal(v) + rest;
    var n: nat := if v < 0 then -v else v;
    DigitsReadBack(n, rest);
    NoDigits(rest, n);
    var digits := DecimalNat(n) + rest;
    assert digits[0] == DecimalNat(n)[0] && DecimalNat(n)[0] in DecimalNat(n);
    if v < 0 {
      assert t[0] == MINUS && t[1..] == digits;
    } else {
      assert t == digits;
    }
  }

  lemma NoDigits(rest: Text, n: nat)
    requires EndsNumber(rest)
    ensures Digits(rest, n) == n
  {
  }

  /** atoi reads a printed number back, over white space and up to what follows. */
  lemma {:induction false} AtoiReadsBack(blanks: Text, v: int, rest: Text)
    requires (forall c <- blanks :: Blank(c)) && EndsNumber(rest)
    ensures Atoi(blanks + Decimal(v) + rest) == v
  {
    hide Decimal;
    var t := blanks + Decimal(v) + rest;
    if blanks == [] {
      AtoiAtOnce(v, rest);
      assert t == Decimal(v) + rest;
    } else {
      AtoiReadsBack(blanks[1..], v, rest);
      assert blanks[0] in blanks && t[0] == blanks[0];
      assert t[1..] == blanks[1..] + Decimal(v) + rest;
    }
  }

  /** A '+' changes nothing. */
  lemma AtoiPlus(n: nat, rest: Text)
    requires EndsNumber(rest)
    ensures Atoi([43] + DecimalNat(n) + rest) == n
  {
    var t := [43] + DecimalNat(n) + rest;
    assert t[1..] == DecimalNat(n) + rest;
    DigitsReadBack(n, rest);
  }

  // ----- words

  /** Words, each with a gap in front of it. */
  function Spaced(words: seq<Text>, gaps: seq<Text>): Text
    requires |words| == |gaps|
  {
    if words == [] then [] else gaps[0] + words[0] + Spaced(words[1..], gaps[1..])
  }

  /** A gap is one or more spaces, tabs and line ends; a word has none of them. */
  predicate Gap(s: Text) {
    s != [] && forall c <- s :: c == 32 || c == 9 || c == 10
  }

  predicate Word(s: Text) {
    s != [] && forall c <- s :: c != 32 && c != 9 && c != 10
  }

  lemma {:induction false} GapSkipped(gap: Text, s: Text)
    requires forall c <- gap :: c == 32 || c == 9 || c == 10
    ensures Tokens(gap + s) == Tokens(s)
  {
    if gap == [] {
      assert gap + s == s;
    } else {
      assert gap[0] in gap;
      assert forall c <- gap[1..] :: c in gap;
      GapSkipped(gap[1..], s);
      assert (gap + s)[1..] == gap[1..] + s;
    }
  }

  /** A word at the front of a text is its first token. */
  lemma WordFirst(word: Text, s: Text)
    requires Word(word)
    requires s != [] ==> Delimiter(s[0])
    ensures Tokens(word + s) == [word] + Tokens(s)
  {
    var t := word + s;
    assert !Delimiter(t[0]) by { assert word[0] in word; }
    forall i | 0 <= i < |word|
      ensures t[i] == word[i] && !Delimiter(t[i])
    {
      assert word[i] in word;
    }
    assert s != [] ==> t[|word|] == s[0];
    assert TokenLength(t) == |word|;
    assert t[..|word|] == word && t[|word|..] == s;
  }

  /** strtok gives back the words that a text was written with, whatever gaps are between
      them and after the last. */
  lemma {:induction false} TokensReadBack(words: seq<Text>, gaps: seq<Text>, after: Text)
    requires |words| == |gaps| && (forall w <- words :: Word(w)) && (forall g <- gaps :: Gap(g))
    requires after == [] || Gap(after)
    ensures Tokens(Spaced(words, gaps) + after) == words
    decreases |words|
  {
    hide Tokens;
    if words == [] {
      GapSkipped(after, []);
      assert after + [] == after && Spaced(words, gaps) + after == after;
      EmptyText();
    } else {
      assert words[0] in words && gaps[0] in gaps;
      var rest := Spaced(words[1..], gaps[1..]) + after;
      TokensReadBack(words[1..], gaps[1..], after);
      SpacedStart(words[1..], gaps[1..], after);
      WordFirst(words[0], rest);
      GapSkipped(gaps[0], words[0] + rest);
      assert Spaced(words, gaps) + after == gaps[0] + (words[0] + rest);
    }
  }

  lemma SpacedStart(words: seq<Text>, gaps: seq<Text>, after: Text)
    requires |words| == |gaps| && (forall g <- gaps :: Gap(g)) && (after == [] || Gap(after))
    ensures var t := Spaced(words, gaps) + after; t != [] ==> Delimiter(t[0])
  {
    var t := Spaced(words, gaps) + after;
    if words != [] {
      assert gaps[0] in gaps && t[0] == gaps[0][0] && gaps[0][0] in gaps[0];
    } else if after != [] {
      assert t[0] == after[0] && after[0] in after;
    }
  }

  lemma EmptyText()
    ensures Tokens([]) == []
  {
  }

  // ----- keys

  /** A key at the front of a text is found there. */
  lemma KeyInFront(key: Text, rest: Text)
    ensures After(key + rest, key) == Some(rest)
  {
    var t := key + rest;
    assert t[..|key|] == key && t[|key|..] == rest;
    assert OccursAt(t, key, 0);
  }

  predicate EndsAt(t: Text, key: Text, at: nat)
    requires at < |t|
  {
    |key| <= at + 1 && t[at + 1 - |key|..at + 1] == key
  }

  /** Where a key ends does not depend on what is around it. */
  lemma EndsAtWithin(before: Text, t: Text, after: Text, key: Text, at: nat)
    requires at < |t| && |key| <= at + 1
    ensures EndsAt(before + t + after, key, |before| + at) <==> EndsAt(t, key, at)
  {
    var whole, lo := before + t + after, at + 1 - |key|;
    assert whole[|before| + lo..|before| + at + 1] == t[lo..at + 1];
  }

  /** A key is not in a text if it ends at neither of the two places where its last letter stands. */
  lemma KeyNowhere(t: Text, key: Text, at1: nat, at2: nat)
    requires key != [] && at1 < |t| && at2 < |t| && !EndsAt(t, key, at1) && !EndsAt(t, key, at2)
    requires forall i | 0 <= i < |t| && t[i] == Last(key) :: i == at1 || i == at2
    ensures After(t, key).None?
  {
    forall k: nat
      ensures !OccursAt(t, key, k)
    {
      if k + |key| <= |t| {
        assert t[k..k + |key|][|key| - 1] == t[k + |key| - 1];
        assert OccursAt(t, key, k) ==> EndsAt(t, key, k + |key| - 1);
      }
    }
  }

  /** A key behind a prefix is the first there if it does not end where its last letter
      stands in the prefix. */
  lemma KeyBehind(prefix: Text, key: Text, rest: Text, at: nat)
    requires key != [] && at < |prefix| && !EndsAt(prefix, key, at)
    requires forall i | 0 <= i < |prefix| && prefix[i] == Last(key) :: i == at
    requires forall i | 0 <= i < |key| - 1 :: key[i] != Last(key)
    ensures After(prefix + key + rest, key) == Some(rest)
  {
    var t := prefix + key + rest;
    assert t[|prefix|..|prefix| + |key|] == key && t[|prefix| + |key|..] == rest;
    assert OccursAt(t, key, |prefix|);
    forall k: nat | k < |prefix|
      ensures !OccursAt(t, key, k)
    {
      var e := k + |key| - 1;
      assert t[k..k + |key|][|key| - 1] == t[e];
      if e < |prefix| {
        assert t[e] == prefix[e] && t[k..k + |key|] == prefix[k..k + |key|];
      } else {
        assert t[e] == key[e - |prefix|];
      }
    }
  }
}
