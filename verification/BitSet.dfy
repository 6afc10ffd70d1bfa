/** Bit numbers as bit vectors. */
module BitIndices {

  lemma ConversionBack(i: nat)
    requires i < 64
    ensures (i as bv7) as nat == i
  {
  }

  lemma ConversionInjective(i: nat, j: nat)
    requires i < 64 && j < 64 && i != j
    ensures i as bv7 != j as bv7
  {
    ConversionBack(i);
    ConversionBack(j);
  }
}

/** The sparse bit set of leased offsets (internal/dhcpsvc/bitset.go). */
module BitSets {
  import opened BitIndices

  const BITS_PER_WORD: nat := 64

  function Mask(i: nat): bv64
    requires i < 64
  {
    1 << i
  }

  function And(w: bv64, mask: bv64): bv64 {
    w & mask
  }

  predicate NonZero(w: bv64) {
    w != 0
  }

  predicate Test(w: bv64, mask: bv64) {
    NonZero(And(w, mask))
  }

  function Write(w: bv64, mask: bv64, ok: bool): bv64 {
    if ok then w | mask else w & !mask
  }

  /** `isSet`: a missing word is a word of zeros. */
  predicate IsSet(words: map<nat, bv64>, n: nat) {
    n / BITS_PER_WORD in words && Test(words[n / BITS_PER_WORD], Mask(n % BITS_PER_WORD))
  }

  /** Setting or clearing the bit i changes the bit i only. */
  lemma WriteBit(w: bv64, i: nat, ok: bool, j: nat)
    requires i < 64 && j < 64
    ensures Test(Write(w, Mask(i), ok), Mask(j)) <==> if i == j then ok else Test(w, Mask(j))
  {
    hide Mask;
    hide Write;
    hide Test;
    if i == j {
      MaskNonZero(i);
      SameMask(w, Mask(i), ok);
    } else {
      MasksDisjoint(i, j);
      OtherMask(w, Mask(i), ok, Mask(j));
    }
  }

  lemma SameMask(w: bv64, a: bv64, ok: bool)
    requires a != 0
    ensures Test(Write(w, a, ok), a) <==> ok
  {
  }

  lemma OtherMask(w: bv64, a: bv64, ok: bool, b: bv64)
    requires a & b == 0
    ensures Test(Write(w, a, ok), b) <==> Test(w, b)
  {
    hide And;
    hide NonZero;
    hide Write;
    if ok {
      OrOther(w, a, b);
    } else {
      AndNotOther(w, a, b);
    }
  }

  lemma OrOther(w: bv64, a: bv64, b: bv64)
    requires a & b == 0
    ensures And(Write(w, a, true), b) == And(w, b)
  {
  }

  lemma AndNotOther(w: bv64, a: bv64, b: bv64)
    requires a & b == 0
    ensures And(Write(w, a, false), b) == And(w, b)
  {
  }

  lemma MaskNonZero(i: nat)
    requires i < 64
    ensures Mask(i) != 0
  {
  }

  lemma MasksDisjoint(i: nat, j: nat)
    requires i < 64 && j < 64 && i != j
    ensures Mask(i) & Mask(j) == 0
  {
    ConversionInjective(i, j);
    ShiftsDisjoint(i as bv7, j as bv7);
  }

  lemma ShiftsDisjoint(i: bv7, j: bv7)
    requires i < 64 && j < 64
    ensures (1 as bv64) << i != 0
    ensures i != j ==> ((1 as bv64) << i) & ((1 as bv64) << j) == 0
  {
  }

  class BitSet {
    var words: map<nat, bv64>

    ghost predicate Has(n: nat)
      reads this
    {
      IsSet(words, n)
    }

    constructor ()
      ensures forall n :: !Has(n)
    {
      words := map[];
    }

    /** Refines a set of naturals: exactly the bit n changes. */
    method Set(n: nat, ok: bool)
      modifies this
      ensures forall m :: Has(m) <==> if m == n then ok else old(Has(m))
    {
      var wordIdx, bitIdx := n / BITS_PER_WORD, n % BITS_PER_WORD;
      var word: bv64 := if wordIdx in words then words[wordIdx] else 0;
      word := Write(word, Mask(bitIdx), ok);
      words := words[wordIdx := word];
      forall m: nat ensures Has(m) <==> if m == n then ok else old(Has(m)) {
        WrittenWord(old(words), n, ok, m);
      }
    }
  }

  lemma WrittenWord(words: map<nat, bv64>, n: nat, ok: bool, m: nat)
    ensures var i := n / BITS_PER_WORD;
            var w: bv64 := if i in words then words[i] else 0;
            IsSet(words[i := Write(w, Mask(n % BITS_PER_WORD), ok)], m) <==> if m == n then ok else IsSet(words, m)
  {
    hide Test;
    hide Write;
    hide Mask;
    if m / BITS_PER_WORD == n / BITS_PER_WORD {
      var w: bv64 := if n / BITS_PER_WORD in words then words[n / BITS_PER_WORD] else 0;
      WriteBit(w, n % BITS_PER_WORD, ok, m % BITS_PER_WORD);
      ZeroWord(Mask(m % BITS_PER_WORD));
      SameQuotient(m, n);
    }
  }

  lemma SameQuotient(m: nat, n: nat)
    requires m / BITS_PER_WORD == n / BITS_PER_WORD
    ensures m % BITS_PER_WORD == n % BITS_PER_WORD <==> m == n
  {
  }

  lemma ZeroWord(a: bv64)
    ensures !Test(0, a)
  {
  }
}
