/** Bytes as bit vectors, and their values. */
module Bits {
  function ToInt(b: bv8): (r: nat)
    ensures r <= 255
  {
    b as int
  }

  lemma ZeroByte()
    ensures ToInt(0) == 0
  {
  }

  /** The byte with this value, by counting up. */
  function FromInt(n: nat): (r: bv8)
    requires n <= 255
  {
    if n == 0 then 0 else FromInt(n - 1) + 1
  }

  lemma {:induction false} ToIntFromInt(n: nat)
    requires n <= 255
    ensures ToInt(FromInt(n)) == n
  {
    hide ToInt;
    ZeroByte();
    if n > 0 {
      ToIntFromInt(n - 1);
      PlusOne(FromInt(n - 1));
    }
  }

  lemma PlusOne(b: bv8)
    ensures ToInt(b) < 255 ==> ToInt(b + 1) == ToInt(b) + 1
  {
  }
}
