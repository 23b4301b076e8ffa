/** The word-packed bit vector used as the visited set of the traversal. Bit `i` lives
    in word `i / 64` at offset `i % 64`; only the first `size` bits are observable,
    the rest of the last word is padding.
 */
module Meow {

  import opened Words

  class BoolArray {
    var data: array<bv64>
    var maskNum: nat
    var size: nat
    /** The abstract value: the `size` observable bits. */
    ghost var Contents: seq<bool>

    /** The buffer holds `maskNum` words, enough for `size` bits. */
    ghost predicate Shaped()
      reads this
    {
      data.Length == maskNum && size <= maskNum * WordBits
    }

    /** Shaped, and the words store `Contents`. */
    ghost predicate Valid()
      reads this, data
    {
      Shaped() && |Contents| == size && Represents(data[..], Contents)
    }

    /** A bit vector of `size` bits, all equal to `initValue`, in `WordCount(size)` words. */
    constructor (size: nat, initValue: bool)
      ensures Valid() && fresh(data)
      ensures this.size == size && maskNum == WordCount(size)
      ensures Contents == seq(size, _ => initValue)
      ensures data[..] == seq(maskNum, _ => if initValue then AllOnes else 0)
    {
      this.size := size;
      data := new bv64[0];
      maskNum := 0;
      Contents := [];
      new;
      Grow(size);
      Fill(initValue);
    }

    /** Copy constructor: same size, same word count, same words, in a buffer of its own. */
    constructor Copy(other: BoolArray)
      requires other.Valid()
      ensures Valid() && fresh(data)
      ensures size == other.size && maskNum == other.maskNum && Contents == other.Contents
      ensures data[..] == other.data[..]
    {
      var buffer := new bv64[other.maskNum];
      var i := 0;
      while i < other.maskNum
        invariant i <= other.maskNum
        invariant forall k :: 0 <= k < i ==> buffer[k] == other.data[k]
      {
        buffer[i] := other.data[i];
        i := i + 1;
      }
      data := buffer;
      maskNum := other.maskNum;
      size := other.size;
      Contents := other.Contents;
      assert buffer[..] == other.data[..];
    }

    /** Move constructor: takes over the buffer; the source is left with no words and size 0. */
    constructor Move(other: BoolArray)
      requires other.Valid()
      modifies other
      ensures Valid() && data == old(other.data)
      ensures size == old(other.size) && maskNum == old(other.maskNum) && Contents == old(other.Contents)
      ensures other.Valid() && other.size == 0 && other.maskNum == 0 && other.data.Length == 0
    {
      data := other.data;
      maskNum := other.maskNum;
      size := other.size;
      Contents := other.Contents;
      new;
      other.data := new bv64[0];
      other.maskNum, other.size := 0, 0;
      other.Contents := [];
    }

    /** Copy assignment: takes the size, word count and bits of `other` into a new
        buffer; assigning an array to itself changes nothing. */
    method Assign(other: BoolArray)
      requires other.Valid()
      modifies this
      ensures Valid()
      ensures size == old(other.size) && maskNum == old(other.maskNum) && Contents == old(other.Contents)
      ensures data[..] == old(other.data[..])
      ensures other != this ==> fresh(data)
    {
      if other == this {
        return;
      }
      var buffer := new bv64[other.maskNum];
      var i := 0;
      while i < other.maskNum
        invariant i <= other.maskNum
        invariant forall k :: 0 <= k < i ==> buffer[k] == other.data[k]
      {
        buffer[i] := other.data[i];
        i := i + 1;
      }
      assert buffer[..] == other.data[..];
      data := buffer;
      maskNum := other.maskNum;
      size := other.size;
      Contents := other.Contents;
    }

    /** Move assignment: takes over the buffer of `other` and leaves it with no words
        and size 0, unless source and target are the same array. */
    method MoveAssign(other: BoolArray)
      requires other.Valid()
      modifies this, other
      ensures Valid() && data == old(other.data)
      ensures size == old(other.size) && maskNum == old(other.maskNum) && Contents == old(other.Contents)
      ensures other != this ==> other.Valid() && other.size == 0 && other.maskNum == 0 && other.data.Length == 0
    {
      if other == this {
        return;
      }
      data := other.data;
      maskNum := other.maskNum;
      size := other.size;
      Contents := other.Contents;
      other.data := new bv64[0];
      other.maskNum, other.size := 0, 0;
      other.Contents := [];
    }

    /** Bit `i`, read from word `i / 64` at offset `i % 64`: the abstract bit `i`. */
    method Get(i: nat) returns (b: bool)
      requires Valid() && i < size
      ensures b == Contents[i]
    {
      assert Contents[i] == Bit(data[..], i);
      b := BitAt(data[i / WordBits], Offset(i % WordBits));
    }

    /** Sets bit `i` to `value` with an OR or AND-NOT mask on its word; every other word
        is untouched, and every other observable bit keeps its value. */
    method Set(i: nat, value: bool)
      requires Valid() && i < size
      modifies this, data
      ensures Valid() && data == old(data) && size == old(size) && maskNum == old(maskNum)
      ensures Contents == old(Contents)[i := value]
      ensures data[i / WordBits] == SetBit(old(data[i / WordBits]), Offset(i % WordBits), value)
      ensures forall k :: 0 <= k < maskNum && k != i / WordBits ==> data[k] == old(data[k])
    {
      var index := i / WordBits;
      var pos := i % WordBits;
      var mask := Mask(Offset(pos));
      ghost var words := data[..];
      var current := data[index];
      var word: bv64;
      if value {
        word := current | mask;
        RepresentsOr(words, Contents, i, current, mask, word);
      } else {
        word := current & !mask;
        RepresentsAndNot(words, Contents, i, current, mask, word);
      }
      SetBitIs(current, mask, word, Offset(pos), value);
      data[index] := word;
      assert data[..] == words[index := word];
      Contents := Contents[i := value];
    }

    /** Overwrites every word, padding bits included, with all ones or all zeros; every
        observable bit becomes `value`. */
    method Fill(value: bool)
      requires Shaped()
      modifies this, data
      ensures Valid() && data == old(data) && size == old(size) && maskNum == old(maskNum)
      ensures Contents == seq(size, _ => value)
      ensures data[..] == seq(maskNum, _ => if value then AllOnes else 0)
    {
      var word: bv64 := if value then AllOnes else 0;
      if value {
        for i := 0 to maskNum
          invariant data == old(data) && maskNum == old(maskNum) && size == old(size)
          invariant forall k :: 0 <= k < i ==> data[k] == AllOnes
        {
          data[i] := AllOnes;
        }
      } else {
        for i := 0 to maskNum
          invariant data == old(data) && maskNum == old(maskNum) && size == old(size)
          invariant forall k :: 0 <= k < i ==> data[k] == 0
        {
          data[i] := 0;
        }
      }
      Contents := seq(size, _ => value);
      RepresentsConstant(data[..], size, value);
      assert data[..] == seq(maskNum, _ => word);
    }

    /** Allocates a fresh buffer of `WordCount(newSize)` words. The buffer is only ever
        grown from the empty state, so there are no old words to carry over. */
    method Grow(newSize: nat)
      modifies this
      ensures fresh(data) && maskNum == WordCount(newSize) && data.Length == maskNum
      ensures size == old(size) && Contents == old(Contents)
    {
      maskNum := (newSize + WordBits - 1) / WordBits;
      if maskNum < 1 {
        maskNum := 1;
      }
      data := new bv64[maskNum];
    }
  }

  /** A copy is independent: setting a bit of the copy leaves the original's bits as
      they were. */
  method SetOnCopy(original: BoolArray, i: nat, value: bool) returns (copy: BoolArray)
    requires original.Valid() && i < original.size
    ensures fresh(copy) && copy.Valid()
    ensures copy.Contents == original.Contents[i := value]
    ensures original.Contents == old(original.Contents) && original.data[..] == old(original.data[..])
  {
    copy := new BoolArray.Copy(original);
    copy.Set(i, value);
  }
}
