/** The physical-frame bitmap of src/paging.c: bit N of the words is 1 when frame N is in use. */
module Frames {

  type Word = bv32

  const FULL_WORD: Word := 0xFFFF_FFFF

  function And(a: Word, b: Word): Word { a & b }

  function Or(a: Word, b: Word): Word { a | b }

  function AndNot(a: Word, b: Word): Word { a & !b }

  function Double(a: Word): Word { a << 1 }

  function Half(a: Word): Word { a >> 1 }

  /** `0x1 << j`. */
  function Mask(j: nat): Word
    requires j < 32
  {
    if j == 0 then 1 else Double(Mask(j - 1))
  }

  predicate Has(w: Word, j: nat)
    requires j < 32
  {
    And(w, Mask(j)) != 0
  }

  lemma ShiftAnd(a: Word, b: Word)
    ensures And(Double(a), Double(b)) == Double(And(a, b))
    ensures And(1, Double(b)) == 0 && Double(0) == 0
  {
  }

  /** Masks of different bits are disjoint. */
  lemma {:induction false} MasksDisjoint(j: nat, k: nat)
    requires j < k < 32
    ensures And(Mask(j), Mask(k)) == 0 && And(Mask(k), Mask(j)) == 0
  {
    if j > 0 {
      MasksDisjoint(j - 1, k - 1);
      ShiftAnd(Mask(j - 1), Mask(k - 1));
    } else {
      ShiftAnd(0, Mask(k - 1));
    }
    AndComm(Mask(j), Mask(k));
  }

  lemma AndComm(a: Word, b: Word)
    ensures And(a, b) == And(b, a)
  {
  }

  /** No shift pushes the bit out of the word. */
  lemma MaskNonzero(j: nat)
    requires j < 32
    ensures Mask(j) != 0
  {
    assert Mask(0) == 0x1;
    assert Mask(1) == 0x2;
    assert Mask(2) == 0x4;
    assert Mask(3) == 0x8;
    assert Mask(4) == 0x10;
    assert Mask(5) == 0x20;
    assert Mask(6) == 0x40;
    assert Mask(7) == 0x80;
    assert Mask(8) == 0x100;
    assert Mask(9) == 0x200;
    assert Mask(10) == 0x400;
    assert Mask(11) == 0x800;
    assert Mask(12) == 0x1000;
    assert Mask(13) == 0x2000;
    assert Mask(14) == 0x4000;
    assert Mask(15) == 0x8000;
    assert Mask(16) == 0x10000;
    assert Mask(17) == 0x20000;
    assert Mask(18) == 0x40000;
    assert Mask(19) == 0x80000;
    assert Mask(20) == 0x100000;
    assert Mask(21) == 0x200000;
    assert Mask(22) == 0x400000;
    assert Mask(23) == 0x800000;
    assert Mask(24) == 0x1000000;
    assert Mask(25) == 0x2000000;
    assert Mask(26) == 0x4000000;
    assert Mask(27) == 0x8000000;
    assert Mask(28) == 0x10000000;
    assert Mask(29) == 0x20000000;
    assert Mask(30) == 0x40000000;
    assert Mask(31) == 0x80000000;
  }

  /** A mask is a single bit: a word has all of it or none of it. */
  lemma {:induction false} MaskSingle(j: nat, w: Word)
    requires j < 32
    ensures And(w, Mask(j)) == 0 || And(w, Mask(j)) == Mask(j)
  {
    hide And, Double, Half;
    if j > 0 {
      MaskSingle(j - 1, Half(w));
      AndShift(w, Mask(j - 1));
      ShiftAnd(0, 0);
    } else {
      AndOne(w);
    }
  }

  lemma AndShift(w: Word, a: Word)
    ensures And(w, Double(a)) == Double(And(Half(w), a))
  {
  }

  lemma AndOne(w: Word)
    ensures And(w, 1) == 0 || And(w, 1) == 1
  {
  }

  lemma OrOther(w: Word, a: Word, b: Word)
    requires And(a, b) == 0
    ensures And(Or(w, a), b) == And(w, b)
  {
  }

  lemma ClearOther(w: Word, a: Word, b: Word)
    requires And(a, b) == 0
    ensures And(AndNot(w, a), b) == And(w, b)
  {
  }

  lemma SameBit(w: Word, a: Word)
    ensures And(Or(w, a), a) == a && And(AndNot(w, a), a) == 0
  {
  }

  /** Setting or clearing one bit changes that bit alone. */
  lemma BitChange(w: Word, j: nat, k: nat)
    requires j < 32 && k < 32
    ensures Has(Or(w, Mask(j)), k) <==> j == k || Has(w, k)
    ensures Has(AndNot(w, Mask(j)), k) <==> j != k && Has(w, k)
  {
    hide Mask, And, Or, AndNot;
    MaskNonzero(j);
    if j == k {
      SameBit(w, Mask(j));
    } else {
      if j < k { MasksDisjoint(j, k); } else { MasksDisjoint(k, j); }
      OrOther(w, Mask(j), Mask(k));
      ClearOther(w, Mask(j), Mask(k));
    }
  }

  /** The low n bits. */
  ghost function Low(n: nat): Word
    requires n <= 32
  {
    if n == 0 then 0 else Or(Low(n - 1), Mask(n - 1))
  }

  lemma {:induction false} LowBits(w: Word, n: nat)
    requires n <= 32 && forall j :: 0 <= j < n ==> Has(w, j)
    ensures And(w, Low(n)) == Low(n)
  {
    hide Mask, And, Or;
    if n > 0 {
      LowBits(w, n - 1);
      MaskSingle(n - 1, w);
      assert Has(w, n - 1);
      AndOr(w, Low(n - 1), Mask(n - 1));
    } else {
      AndExtremes(w);
    }
  }

  lemma AndOr(w: Word, a: Word, b: Word)
    ensures And(w, Or(a, b)) == Or(And(w, a), And(w, b))
  {
  }

  lemma AndExtremes(w: Word)
    ensures And(w, 0) == 0 && And(w, FULL_WORD) == w && And(FULL_WORD, w) == w
  {
  }

  lemma LowAll()
    ensures Low(32) == FULL_WORD
  {
    MaskNonzero(0);
    assert Low(0) == 0;
    assert Low(1) == 0x1;
    assert Low(2) == 0x3;
    assert Low(3) == 0x7;
    assert Low(4) == 0xF;
    assert Low(5) == 0x1F;
    assert Low(6) == 0x3F;
    assert Low(7) == 0x7F;
    assert Low(8) == 0xFF;
    assert Low(9) == 0x1FF;
    assert Low(10) == 0x3FF;
    assert Low(11) == 0x7FF;
    assert Low(12) == 0xFFF;
    assert Low(13) == 0x1FFF;
    assert Low(14) == 0x3FFF;
    assert Low(15) == 0x7FFF;
    assert Low(16) == 0xFFFF;
    assert Low(17) == 0x1FFFF;
    assert Low(18) == 0x3FFFF;
    assert Low(19) == 0x7FFFF;
    assert Low(20) == 0xFFFFF;
    assert Low(21) == 0x1FFFFF;
    assert Low(22) == 0x3FFFFF;
    assert Low(23) == 0x7FFFFF;
    assert Low(24) == 0xFFFFFF;
    assert Low(25) == 0x1FFFFFF;
    assert Low(26) == 0x3FFFFFF;
    assert Low(27) == 0x7FFFFFF;
    assert Low(28) == 0xFFFFFFF;
    assert Low(29) == 0x1FFFFFFF;
    assert Low(30) == 0x3FFFFFFF;
    assert Low(31) == 0x7FFFFFFF;
    assert Low(32) == 0xFFFFFFFF;
  }

  /** A word is full exactly when all 32 bits are set. */
  lemma FullWord(w: Word)
    ensures w == FULL_WORD <==> forall j :: 0 <= j < 32 ==> Has(w, j)
  {
    hide Mask, And, Low;
    if w == FULL_WORD {
      forall j | 0 <= j < 32 ensures Has(w, j) {
        MaskNonzero(j);
        AndExtremes(Mask(j));
      }
    } else if forall j :: 0 <= j < 32 ==> Has(w, j) {
      LowBits(w, 32);
      LowAll();
      AndExtremes(w);
    }
  }

  lemma {:induction false} NoLowBits(w: Word, n: nat)
    requires n <= 32 && forall j :: 0 <= j < n ==> !Has(w, j)
    ensures And(w, Low(n)) == 0
  {
    hide Mask, And, Or;
    if n > 0 {
      NoLowBits(w, n - 1);
      assert !Has(w, n - 1);
      AndOr(w, Low(n - 1), Mask(n - 1));
      OrZero();
    } else {
      AndExtremes(w);
    }
  }

  lemma OrZero()
    ensures Or(0, 0) == 0
  {
  }

  /** A word without bits is zero. */
  lemma NoBits(w: Word)
    requires forall j :: 0 <= j < 32 ==> !Has(w, j)
    ensures w == 0
  {
    hide Mask, And, Low, Has;
    NoLowBits(w, 32);
    LowAll();
    AndExtremes(w);
  }

  class FrameBitmap {
    const words: array<Word>
    const nframes: nat

    predicate Bit(f: nat)
      requires f < 32 * words.Length
      reads words
    {
      Has(words[f / 32], f % 32)
    }

    ghost predicate Valid()
      reads words
    {
      && nframes <= 32 * words.Length
      && forall f :: nframes <= f < 32 * words.Length ==> Bit(f)
    }

    /** Frames in use. */
    ghost function Used(): (used: set<nat>)
      requires Valid()
      reads words
    {
      set f: nat | f < nframes && Bit(f)
    }

    /** Out of physical memory. */
    ghost predicate Full()
      requires Valid()
      reads words
    {
      forall f: nat :: f < nframes ==> f in Used()
    }

    /** The bitmap initialise_paging builds: every frame free, padding bits marked in use. */
    constructor (n: nat)
      ensures Valid() && nframes == n && Used() == {} && fresh(words)
    {
      words := new Word[(n + 31) / 32](_ => 0);
      nframes := n;
      new;
      var padding := n;
      while padding < 32 * words.Length
        invariant n <= padding <= 32 * words.Length
        invariant forall f :: 0 <= f < n ==> !Bit(f)
        invariant forall f :: n <= f < padding ==> Bit(f)
      {
        SetWord(padding);
        padding := padding + 1;
      }
    }

    method SetWord(f: nat)
      requires f < 32 * words.Length
      modifies words
      ensures forall g :: 0 <= g < 32 * words.Length ==> (Bit(g) <==> g == f || old(Bit(g)))
    {
      hide Mask, Has, Or, AndNot;
      ghost var before := words[..];
      words[f / 32] := Or(words[f / 32], Mask(f % 32));
      forall g | 0 <= g < 32 * words.Length
        ensures Bit(g) <==> g == f || Has(before[g / 32], g % 32)
      {
        BitChange(before[f / 32], f % 32, g % 32);
      }
    }

    method ClearWord(f: nat)
      requires f < 32 * words.Length
      modifies words
      ensures forall g :: 0 <= g < 32 * words.Length ==> (Bit(g) <==> g != f && old(Bit(g)))
    {
      hide Mask, Has, Or, AndNot;
      ghost var before := words[..];
      words[f / 32] := AndNot(words[f / 32], Mask(f % 32));
      forall g | 0 <= g < 32 * words.Length
        ensures Bit(g) <==> g != f && Has(before[g / 32], g % 32)
      {
        BitChange(before[f / 32], f % 32, g % 32);
      }
    }

    method SetFrame(f: nat)
      requires Valid() && f < nframes
      modifies words
      ensures Valid() && Used() == old(Used()) + {f}
    {
      SetWord(f);
    }

    method ClearFrame(f: nat)
      requires Valid() && f < nframes
      modifies words
      ensures Valid() && Used() == old(Used()) - {f}
    {
      ClearWord(f);
    }

    /** The lowest free frame, or -1 when every frame is in use. */
    method FirstFrame() returns (r: int)
      requires Valid()
      ensures r == -1 <==> Full()
      ensures r != -1 ==> 0 <= r < nframes && r !in Used() && forall f: nat :: f < r ==> f in Used()
    {
      var i := 0;
      while i < words.Length
        invariant i <= words.Length && forall f :: 0 <= f < 32 * i ==> Bit(f)
      {
        FullWord(words[i]);
        if words[i] != FULL_WORD {
          var j := 0;
          while j < 32
            invariant j <= 32 && forall f :: 0 <= f < 32 * i + j ==> Bit(f)
          {
            if !Has(words[i], j) {
              var frame := i * 32 + j;
              assert !Bit(frame);
              assert frame < nframes ==> frame !in Used();
              if frame < nframes { return frame; }
            }
            j := j + 1;
          }
        } else {
          forall f | 32 * i <= f < 32 * i + 32 ensures Bit(f) {
            assert f / 32 == i;
          }
        }
        i := i + 1;
      }
      return -1;
    }
  }
}
