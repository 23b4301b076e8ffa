/** Bit arithmetic on the 64-bit storage words of the bit vector: bit `i` of a word
    sequence lives in word `i / 64` at offset `i % 64`.
 */
module Words {

  /** Bits per storage word. */
  const WordBits: nat := 64

  /** A word with every bit set (what `-1` becomes in an unsigned 64-bit word). */
  const AllOnes: bv64 := 0xFFFF_FFFF_FFFF_FFFF

  /** The offset of a bit inside its word, as a shift amount: `pos` counted up in six bits.
      Counting up, rather than converting with `pos as bv6`, keeps integer-to-bit-vector
      conversions out of the proofs, where they are expensive for the solver. */
  function Offset(pos: nat): bv6
    requires pos < WordBits
  {
    if pos == 0 then 0 else Offset(pos - 1) + 1
  }

  /** The single-bit mask `1 << p`. */
  function Mask(p: bv6): bv64
  {
    1 << (p as bv64)
  }

  /** Word `w` with bit `p` set to `value`: the mask OR-ed in, or its complement AND-ed in. */
  function SetBit(w: bv64, p: bv6, value: bool): bv64
  {
    if value then w | Mask(p) else w & !Mask(p)
  }

  /** The word an OR (for true) or AND-NOT (for false) with the mask of bit `p` gives is
      `SetBit` of the old word. */
  lemma SetBitIs(current: bv64, mask: bv64, word: bv64, p: bv6, value: bool)
    requires mask == Mask(p)
    requires word == if value then current | mask else current & !mask
    ensures word == SetBit(current, p, value)
  {
    if value {
      assert SetBit(current, p, value) == current | mask;
    } else {
      assert SetBit(current, p, value) == current & !mask;
    }
  }

  /** Bit `p` of word `w`. */
  function BitAt(w: bv64, p: bv6): bool
  {
    w & Mask(p) != 0
  }

  /** The shift amount of `pos` denotes `pos`. */
  lemma {:induction false} OffsetValue(pos: nat)
    requires pos < WordBits
    ensures Offset(pos) as int == pos
  {
    if pos > 0 {
      OffsetValue(pos - 1);
      var previous := Offset(pos - 1);
      assert (previous + 1) as int == previous as int + 1;
    }
  }

  /** Distinct offsets inside a word give distinct shift amounts. */
  lemma OffsetsDistinct(pos: nat, k: nat)
    requires pos < WordBits && k < WordBits && pos != k
    ensures Offset(pos) != Offset(k)
  {
    OffsetValue(pos);
    OffsetValue(k);
  }

  /** `word` is `current` with the mask of bit `p` OR-ed in: bit `k` of it is set
      exactly when `k` is `p` or bit `k` of `current` is set. */
  lemma WordOr(current: bv64, mask: bv64, word: bv64, p: bv6, k: bv6)
    requires mask == Mask(p) && word == current | mask
    ensures BitAt(word, k) == (k == p || BitAt(current, k))
  {
  }

  /** `word` is `current` AND-ed with the complement of the mask of bit `p`: bit `k`
      of it is set exactly when `k` is not `p` and bit `k` of `current` is set. */
  lemma WordAndNot(current: bv64, mask: bv64, word: bv64, p: bv6, k: bv6)
    requires mask == Mask(p) && word == current & !mask
    ensures BitAt(word, k) == (k != p && BitAt(current, k))
  {
  }

  /** The all-ones word has every bit set; the zero word has none. */
  lemma BitAtConstant(p: bv6)
    ensures BitAt(AllOnes, p) && !BitAt(0, p)
  {
  }

  /** The number of words allocated for `size` bits: `ceil(size / 64)`, but at least one.
      It is the least positive word count that covers `size` bits. */
  function WordCount(size: nat): (n: nat)
    ensures n >= 1 && size <= n * WordBits
    ensures size > 0 ==> (n - 1) * WordBits < size
    ensures size == 0 ==> n == 1
  {
    var words := (size + WordBits - 1) / WordBits;
    if words < 1 then 1 else words
  }

  /** Bit `i` of a word sequence. */
  function Bit(words: seq<bv64>, i: nat): bool
    requires i / WordBits < |words|
  {
    BitAt(words[i / WordBits], Offset(i % WordBits))
  }

  /** `words` stores `bits`: it has room for them, and each of them is the matching
      bit of the words. Bits past `|bits|` (padding) are unconstrained. */
  ghost predicate Represents(words: seq<bv64>, bits: seq<bool>)
  {
    |bits| <= |words| * WordBits &&
    forall i {:trigger Bit(words, i)} :: 0 <= i < |bits| ==> bits[i] == Bit(words, i)
  }

  /** Two bits of the same word sit at the same offset only if they are the same bit. */
  lemma SameWordOffsets(i: nat, j: nat)
    requires j / WordBits == i / WordBits
    ensures Offset(i % WordBits) == Offset(j % WordBits) <==> i == j
  {
    if i != j {
      assert i % WordBits != j % WordBits;
      OffsetsDistinct(i % WordBits, j % WordBits);
    }
  }

  /** After OR-ing the mask of bit `i` into its word, bit `j` is set exactly when
      `j` is `i` or bit `j` was set before. */
  lemma BitAfterOr(words: seq<bv64>, i: nat, current: bv64, mask: bv64, word: bv64, j: nat)
    requires i / WordBits < |words| && j / WordBits < |words|
    requires current == words[i / WordBits] && mask == Mask(Offset(i % WordBits)) && word == current | mask
    ensures Bit(words[i / WordBits := word], j) == (j == i || Bit(words, j))
  {
    if j / WordBits == i / WordBits {
      SameWordOffsets(i, j);
      WordOr(current, mask, word, Offset(i % WordBits), Offset(j % WordBits));
    }
  }

  /** After AND-ing the complement of the mask of bit `i` into its word, bit `j` is set
      exactly when `j` is not `i` and bit `j` was set before. */
  lemma BitAfterAndNot(words: seq<bv64>, i: nat, current: bv64, mask: bv64, word: bv64, j: nat)
    requires i / WordBits < |words| && j / WordBits < |words|
    requires current == words[i / WordBits] && mask == Mask(Offset(i % WordBits)) && word == current & !mask
    ensures Bit(words[i / WordBits := word], j) == (j != i && Bit(words, j))
  {
    if j / WordBits == i / WordBits {
      SameWordOffsets(i, j);
      WordAndNot(current, mask, word, Offset(i % WordBits), Offset(j % WordBits));
    }
  }

  /** OR-ing the mask of bit `i` into its word stores `bits[i := true]`. */
  lemma RepresentsOr(words: seq<bv64>, bits: seq<bool>, i: nat, current: bv64, mask: bv64, word: bv64)
    requires Represents(words, bits) && i < |bits|
    requires current == words[i / WordBits] && mask == Mask(Offset(i % WordBits)) && word == current | mask
    ensures Represents(words[i / WordBits := word], bits[i := true])
  {
    var updated := words[i / WordBits := word];
    forall j | 0 <= j < |bits|
      ensures bits[i := true][j] == Bit(updated, j)
    {
      BitAfterOr(words, i, current, mask, word, j);
      assert bits[j] == Bit(words, j);
    }
  }

  /** AND-ing the complement of the mask of bit `i` into its word stores `bits[i := false]`. */
  lemma RepresentsAndNot(words: seq<bv64>, bits: seq<bool>, i: nat, current: bv64, mask: bv64, word: bv64)
    requires Represents(words, bits) && i < |bits|
    requires current == words[i / WordBits] && mask == Mask(Offset(i % WordBits)) && word == current & !mask
    ensures Represents(words[i / WordBits := word], bits[i := false])
  {
    var updated := words[i / WordBits := word];
    forall j | 0 <= j < |bits|
      ensures bits[i := false][j] == Bit(updated, j)
    {
      BitAfterAndNot(words, i, current, mask, word, j);
      assert bits[j] == Bit(words, j);
    }
  }

  /** Words that are all ones (all zeros) store any number of true (false) bits they
      have room for, padding included. */
  lemma RepresentsConstant(words: seq<bv64>, size: nat, value: bool)
    requires size <= |words| * WordBits
    requires forall k :: 0 <= k < |words| ==> words[k] == if value then AllOnes else 0
    ensures Represents(words, seq(size, _ => value))
  {
    forall j | 0 <= j < size
      ensures value == Bit(words, j)
    {
      BitAtConstant(Offset(j % WordBits));
    }
  }
}
