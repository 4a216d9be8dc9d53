/** The register-field and alignment macros of the graphics HAL, on 32-bit words. */
module GcMacros {
  import opened Basics
  import opened GcBits

  const WORD: nat := 32

  type Word = w: Bits | |w| == WORD witness Ones(WORD)

  // ----- register fields

  /** A field is declared "end : start", both bits included. */
  datatype Field = Field(end: nat, start: nat)

  predicate InWord(f: Field) {
    f.start <= f.end < WORD
  }

  function Size(f: Field): nat
    requires InWord(f)
  {
    f.end - f.start + 1
  }

  function Align(data: Word, f: Field): Word {
    Shl(data, f.start)
  }

  function Mask(f: Field): Word
    requires InWord(f)
  {
    if Size(f) == WORD then Ones(WORD) else Not(Shl(Ones(WORD), Size(f)))
  }

  function GetField(data: Word, f: Field): Word
    requires InWord(f)
  {
    And(Shr(data, f.start), Mask(f))
  }

  /** gcmSETFIELD, and gcmSETFIELDVALUE for a value that has a name. */
  function SetField(data: Word, f: Field, value: Word): Word
    requires InWord(f)
  {
    Or(And(data, Not(Align(Mask(f), f))), Align(And(value, Mask(f)), f))
  }

  function SetMaskedField(f: Field, mask: Field, value: Word, enabled: Word): Word
    requires InWord(f) && InWord(mask)
  {
    And(SetField(Ones(WORD), f, value), SetField(Ones(WORD), mask, enabled))
  }

  predicate Inside(i: nat, f: Field) {
    f.start <= i <= f.end
  }

  predicate Disjoint(f: Field, g: Field) {
    f.end < g.start || g.end < f.start
  }

  lemma MaskBits(f: Field, i: nat)
    requires InWord(f) && i < WORD
    ensures Mask(f)[i] == (i < Size(f))
  {
  }

  /** Bit by bit: inside the field the value, outside it the old word. */
  lemma SetFieldBits(data: Word, f: Field, value: Word, i: nat)
    requires InWord(f) && i < WORD
    ensures SetField(data, f, value)[i] == if Inside(i, f) then value[i - f.start] else data[i]
  {
  }

  lemma GetFieldBits(data: Word, f: Field, i: nat)
    requires InWord(f) && i < WORD
    ensures GetField(data, f)[i] == (i < Size(f) && data[i + f.start])
  {
  }

  lemma GetAfterSet(data: Word, f: Field, value: Word)
    requires InWord(f)
    ensures GetField(SetField(data, f, value), f) == And(value, Mask(f))
  {
  }

  lemma SetKeepsOthers(data: Word, f: Field, value: Word, g: Field)
    requires InWord(f) && InWord(g) && Disjoint(f, g)
    ensures GetField(SetField(data, f, value), g) == GetField(data, g)
  {
  }

  lemma SetsCommute(data: Word, f: Field, v: Word, g: Field, w: Word)
    requires InWord(f) && InWord(g) && Disjoint(f, g)
    ensures SetField(SetField(data, f, v), g, w) == SetField(SetField(data, g, w), f, v)
  {
  }

  /** A later set of the same field wins, and setting what is there changes nothing. */
  lemma LastSetWins(data: Word, f: Field, v: Word, w: Word)
    requires InWord(f)
    ensures SetField(SetField(data, f, v), f, w) == SetField(data, f, w)
    ensures SetField(data, f, GetField(data, f)) == data
  {
  }

  /** A masked set reads back the value and the enable bits, and every other bit is one. */
  lemma MaskedSet(f: Field, mask: Field, value: Word, enabled: Word)
    requires InWord(f) && InWord(mask) && Disjoint(f, mask)
    ensures var r := SetMaskedField(f, mask, value, enabled);
            && GetField(r, f) == And(value, Mask(f)) && GetField(r, mask) == And(enabled, Mask(mask))
            && forall i | 0 <= i < WORD && !Inside(i, f) && !Inside(i, mask) :: r[i]
  {
    var r := SetMaskedField(f, mask, value, enabled);
    forall i | 0 <= i < WORD
      ensures r[i] == if Inside(i, f) then value[i - f.start] else Inside(i, mask) ==> enabled[i - mask.start]
    {
      SetFieldBits(Ones(WORD), f, value, i);
      SetFieldBits(Ones(WORD), mask, enabled, i);
    }
    forall i | 0 <= i < WORD
      ensures GetField(r, f)[i] == And(value, Mask(f))[i]
      ensures GetField(r, mask)[i] == And(enabled, Mask(mask))[i]
    {
      GetFieldBits(r, f, i);
      GetFieldBits(r, mask, i);
      MaskBits(f, i);
      MaskBits(mask, i);
    }
  }

  /** In numbers: reading a field divides by 2^start and keeps the remainder by 2^size. */
  lemma GetFieldValue(data: Word, f: Field)
    requires InWord(f)
    ensures ToNat(GetField(data, f)) == ToNat(data) / Pow2(f.start) % Pow2(Size(f))
  {
    var g, n := GetField(data, f), Size(f);
    forall i | 0 <= i < WORD
      ensures g[i] == (i < n && data[i + f.start])
    {
      GetFieldBits(data, f, i);
    }
    Padded(g, n);
    assert g[..n] == data[f.start..][..n];
    Split(data, f.start);
    Split(data[f.start..], n);
  }

  /** In numbers: a field reads back the value it was set to, mod 2^size. */
  lemma SetFieldValue(data: Word, f: Field, value: Word)
    requires InWord(f)
    ensures ToNat(SetField(data, f, value)) / Pow2(f.start) % Pow2(Size(f)) == ToNat(value) % Pow2(Size(f))
  {
    hide ToNat, Pow2, SetField;
    var n, cut := Size(f), And(value, Mask(f));
    GetFieldValue(SetField(data, f, value), f);
    GetAfterSet(data, f, value);
    forall i | 0 <= i < WORD
      ensures cut[i] == (i < n && value[i])
    {
      MaskBits(f, i);
    }
    Padded(cut, n);
    assert cut[..n] == value[..n];
    Split(value, n);
  }

  // ----- alignment

  /** ((n) + ((align) - 1)) & ~((align) - 1) */
  function AlignUp(n: nat, align: nat): nat
    requires align > 0
  {
    ToNat(And(FromNat(WORD, n + align - 1), Not(FromNat(WORD, align - 1))))
  }

  /** ((n) + (align) - 1) - (((n) + (align) - 1) % (align)) */
  function AlignUpNp2(n: nat, align: nat): nat
    requires align > 0
  {
    n + align - 1 - (n + align - 1) % align
  }

  /** (n) & ~((align) - 1) */
  function AlignBase(n: nat, align: nat): nat
    requires align > 0
  {
    ToNat(And(FromNat(WORD, n), Not(FromNat(WORD, align - 1))))
  }

  predicate Multiple(v: int, align: nat)
    requires align > 0
  {
    v % align == 0
  }

  /** Clearing the k lowest bits leaves the greatest multiple of 2^k. */
  lemma ClearLow(v: nat, k: nat)
    requires v < Pow2(WORD) && k <= WORD
    ensures ToNat(And(FromNat(WORD, v), Not(FromNat(WORD, Pow2(k) - 1)))) == v - v % Pow2(k)
  {
    hide Pow2, ToNat, FromNat;
    var a := FromNat(WORD, v);
    var r := And(a, Not(FromNat(WORD, Pow2(k) - 1)));
    LowMask(WORD, k);
    FromNatValue(WORD, v);
    Split(a, k);
    Cleared(r, k);
    assert r[k..] == a[k..];
  }

  /** Rounding down by a remainder: a multiple, with no other between it and the number. */
  lemma RoundDown(v: nat, align: nat)
    requires align > 0
    ensures Multiple(v - v % align, align)
  {
    DivMod(v - v % align, align, v / align, 0);
  }

  /** Multiples are at least their alignment apart. */
  lemma MultiplesApart(a: int, b: int, align: nat)
    requires align > 0 && Multiple(a, align) && Multiple(b, align) && a < b
    ensures a + align <= b
  {
    var d := b / align - a / align;
    assert a == (a / align) * align && b == (b / align) * align;
    assert b - a == d * align;
    assert d <= 0 ==> d * align <= 0;
    assert d >= 1 ==> d * align >= align;
  }

  /** The remainder form gives the least multiple that is not below the number, for any
      alignment. */
  lemma AlignUpNp2IsLeast(n: nat, align: nat)
    requires align > 0
    ensures Multiple(AlignUpNp2(n, align), align) && AlignUpNp2(n, align) >= n
    ensures forall m: nat :: Multiple(m, align) && m >= n ==> m >= AlignUpNp2(n, align)
  {
    RoundDown(n + align - 1, align);
    var r := AlignUpNp2(n, align);
    forall m: nat | Multiple(m, align) && m >= n
      ensures m >= r
    {
      if m < r {
        MultiplesApart(m, r, align);
      }
    }
  }

  /** v & ~(v - 1) is v only for a power of two. */
  lemma {:induction false} LowestBitIsAll(n: nat, v: nat) returns (k: nat)
    requires 0 < v < Pow2(n)
    requires ToNat(And(FromNat(n, v), Not(FromNat(n, v - 1)))) == v
    ensures k < n && v == Pow2(k)
  {
    var r := And(FromNat(n, v), Not(FromNat(n, v - 1)));
    assert FromNat(n, v)[1..] == FromNat(n - 1, v / 2) && FromNat(n, v - 1)[1..] == FromNat(n - 1, (v - 1) / 2);
    assert r[1..] == And(FromNat(n - 1, v / 2), Not(FromNat(n - 1, (v - 1) / 2)));
    if v % 2 == 1 {
      assert (v - 1) / 2 == v / 2;
      Zeros(r[1..]);
      k := 0;
    } else {
      assert (v - 1) / 2 == v / 2 - 1;
      k := LowestBitIsAll(n - 1, v / 2);
      k := k + 1;
    }
  }

  predicate Agree(n: nat, align: nat)
    requires align > 0
  {
    AlignUp(n, align) == AlignUpNp2(n, align)
  }

  /** The two forms agree on every number exactly when the alignment is a power of two. */
  lemma FormsAgree(align: nat)
    requires 0 < align < Pow2(WORD)
    ensures (forall n: nat | n + align - 1 < Pow2(WORD) :: Agree(n, align)) <==>
            exists k: nat | k < WORD :: align == Pow2(k)
  {
    hide FromNat, ToNat;
    if k: nat :| k < WORD && align == Pow2(k) {
      forall n: nat | n + align - 1 < Pow2(WORD)
        ensures Agree(n, align)
      {
        PowerOfTwoAlignment(n, k);
      }
      assert exists k: nat | k < WORD :: align == Pow2(k);
    } else if Agree(1, align) {
      DivMod(align, align, 1, 0);
      var k := LowestBitIsAll(WORD, align);
    }
  }

  /** For a power of two, without overflow, the bit form agrees with it; the base form gives
      the greatest multiple that is not above the number. */
  lemma PowerOfTwoAlignment(n: nat, k: nat)
    requires k <= WORD && n + Pow2(k) - 1 < Pow2(WORD)
    ensures AlignUp(n, Pow2(k)) == AlignUpNp2(n, Pow2(k))
    ensures Multiple(AlignBase(n, Pow2(k)), Pow2(k)) && AlignBase(n, Pow2(k)) <= n
    ensures forall m: nat :: Multiple(m, Pow2(k)) && m <= n ==> m <= AlignBase(n, Pow2(k))
  {
    hide Pow2, FromNat, ToNat;
    var align := Pow2(k);
    ClearLow(n + align - 1, k);
    ClearLow(n, k);
    RoundDown(n, align);
    var r := AlignBase(n, align);
    forall m: nat | Multiple(m, align) && m <= n
      ensures m <= r
    {
      if r < m {
        MultiplesApart(r, m, align);
      }
    }
  }
}
