/** extractPadding: branch-free removal of CBC padding against its plain meaning. Machine words of Go's
    uint are integers modulo 2^64; bytes are bit vectors. */
module Padding {
  import opened Bits

  const TWO31 := 0x8000_0000
  const TWO32 := 0x1_0000_0000
  const TWO64 := 0x1_0000_0000_0000_0000

  /** byte(int32(^t) >> 31) for t = uint(n): the complement is cut to 32 bits and its sign smeared. */
  function SignMask(n: int): (r: bv8)
  {
    var t := n % TWO64;
    var complement := TWO64 - 1 - t;
    if complement % TWO32 >= TWO31 then 255 else 0
  }

  lemma SignMaskMeans(n: int)
    requires -TWO31 <= n < TWO31
    ensures SignMask(n) == if n >= 0 then 255 else 0
  {
    if n >= 0 {
      assert n % TWO64 == n;
      assert TWO64 - 1 - n == (TWO32 - 1) * TWO32 + (TWO32 - 1 - n);
    } else {
      assert n % TWO64 == n + TWO64;
      assert TWO64 - 1 - (n + TWO64) == -1 - n;
    }
  }

  /** The mask from bit 31 alone, for a difference that is not negative. */
  lemma SignMaskBit(n: nat)
    requires n < TWO64
    ensures SignMask(n) == 255 <==> n % TWO32 < TWO31
  {
    var q, r := n / TWO32, n % TWO32;
    assert TWO64 - 1 - n == (TWO32 - 1 - q) * TWO32 + (TWO32 - 1 - r);
    RemainderOf(TWO64 - 1 - n, TWO32 - 1 - q, TWO32 - 1 - r);
  }

  lemma RemainderOf(n: nat, q: nat, r: nat)
    requires n == q * TWO32 + r && r < TWO32
    ensures n % TWO32 == r
  {
  }

  function Clear(good: bv8, mask: bv8, p: bv8, b: bv8): (r: bv8) { good & !((mask & p) ^ (mask & b)) }

  /** good &^= mask&p ^ mask&b clears a bit of good exactly where p and b differ under the mask. */
  lemma ClearStep(good: bv8, mask: bv8, p: bv8, b: bv8)
    requires mask == 255 || mask == 0
    ensures Clear(good, mask, p, b) == 255 <==> good == 255 && (mask == 0 || p == b)
  {
    if mask == 0 {
      assert (0 as bv8) & p == 0 && (0 as bv8) & b == 0;
      assert good & !(0 as bv8) == good;
    } else {
      assert (255 as bv8) & p == p && (255 as bv8) & b == b;
      XorZero(p, b);
      AndOnes(good, !(p ^ b));
    }
  }

  lemma XorZero(p: bv8, b: bv8)
    ensures !(p ^ b) == 255 <==> p == b
  {
  }

  lemma AndOnes(x: bv8, y: bv8)
    ensures x & y == 255 <==> x == 255 && y == 255
  {
  }

  function Fold(good: bv8): (r: bv8)
  {
    var a := good & (good << 4);
    var b := a & (a << 2);
    var c := b & (b << 1);
    if c & 128 != 0 then 255 else 0  // uint8(int8(c) >> 7)
  }

  lemma FoldIsAll(good: bv8)
    ensures Fold(good) == if good == 255 then 255 else 0
  {
  }

  function FromEnd(payload: seq<bv8>, i: nat): (r: bv8)
    requires i < |payload|
  {
    payload[|payload| - 1 - i]
  }

  /** The last n bytes, as far as they exist, all equal p. */
  predicate EndsIn(payload: seq<bv8>, n: nat, p: bv8)
  {
    forall i: nat | i < n && i < |payload| :: FromEnd(payload, i) == p
  }

  function PadLength(payload: seq<bv8>): (r: nat)
    requires payload != []
    ensures r <= 255
  {
    ToInt(FromEnd(payload, 0))
  }

  function And(p: bv8, good: bv8): (r: bv8) { p & good }

  /** The last p + 1 bytes exist and all equal p, where p is the last byte. */
  predicate Padded(payload: seq<bv8>)
    requires payload != []
  {
    PadLength(payload) + 1 <= |payload| && EndsIn(payload, PadLength(payload) + 1, FromEnd(payload, 0))
  }

  function Plain(payload: seq<bv8>): (r: (int, bv8))
  {
    if payload == [] then (0, 0) else if Padded(payload) then (PadLength(payload) + 1, 255) else (1, 0)
  }

  /** The same with the length test as the code makes it. */
  function Tested(payload: seq<bv8>): (r: (int, bv8))
    ensures r.0 >= 0
  {
    if payload == [] then (0, 0) else
    var n := PadLength(payload);
    if SignMask(|payload| - 1 - n) == 255 && EndsIn(payload, n + 1, FromEnd(payload, 0)) then (n + 1, 255) else (1, 0)
  }

  lemma EndsInNext(payload: seq<bv8>, i: nat, n: nat, p: bv8)
    requires i < |payload|
    ensures i < n ==> (EndsIn(payload, i + 1, p) <==> EndsIn(payload, i, p) && FromEnd(payload, i) == p)
    ensures i < n ==> Least(i, n) == i && Least(i + 1, n) == i + 1
    ensures i >= n ==> Least(i, n) == n == Least(i + 1, n)
  {
  }

  function Least(a: nat, b: nat): (r: nat) { if a <= b then a else b }

  /** extractPadding. */
  method ExtractPadding(payload: seq<bv8>) returns (toRemove: int, good: bv8)
    ensures (toRemove, good) == Tested(payload)
  {
    hide SignMask, FromEnd, EndsIn, Fold, Clear, And, ToInt;
    if |payload| < 1 { return 0, 0; }
    var paddingLen := FromEnd(payload, 0);
    ghost var p := paddingLen;
    var n := PadLength(payload);
    good := SignMask(|payload| - 1 - n);
    ghost var test := good == 255;
    var toCheck := 256;
    if toCheck > |payload| { toCheck := |payload|; }
    NothingYet(payload, p);
    for i := 0 to toCheck
      invariant good == 255 <==> test && EndsIn(payload, Least(i, n + 1), p)
    {
      var mask := SignMask(n - i);
      SignMaskMeans(n - i);
      var b := FromEnd(payload, i);
      ClearStep(good, mask, paddingLen, b);
      EndsInNext(payload, i, n + 1, p);
      good := Clear(good, mask, paddingLen, b);
    }
    EndsInAll(payload, n + 1, toCheck, p);
    FoldIsAll(good);
    good := Fold(good);
    MaskByte(paddingLen, good);
    paddingLen := And(paddingLen, good);
    toRemove := ToInt(paddingLen) + 1;
    ZeroByte();
  }

  lemma NothingYet(payload: seq<bv8>, p: bv8)
    ensures EndsIn(payload, 0, p)
  {
  }

  /** Checking 256 bytes, or all there are, checks every byte of the padding. */
  lemma EndsInAll(payload: seq<bv8>, n: nat, checked: nat, p: bv8)
    requires n <= 256 && checked == Least(256, |payload|)
    ensures EndsIn(payload, Least(checked, n), p) <==> EndsIn(payload, n, p)
  {
  }

  lemma MaskByte(p: bv8, good: bv8)
    requires good == 0 || good == 255
    ensures And(p, good) == if good == 255 then p else 0
  {
    if good == 255 { assert p & 255 == p; } else { assert p & 0 == 0; }
  }

  /** The code has the plain meaning exactly when bit 31 of the data length does not get in the way:
      for every payload shorter than 2^31, and for a longer one when that bit is clear or the padding
      is bad anyway. */
  lemma MatchesPlainExactly(payload: seq<bv8>)
    requires payload != [] && |payload| < TWO64
    ensures Tested(payload) == Plain(payload) <==>
            |payload| < TWO31 || !Padded(payload) || (|payload| - 1 - PadLength(payload)) % TWO32 < TWO31
  {
    hide SignMask, EndsIn, FromEnd;
    var n := |payload| - 1 - PadLength(payload);
    if n < 0 { SignMaskMeans(n); } else { SignMaskBit(n); SmallRemainder(n); }
  }

  lemma SmallRemainder(n: nat)
    ensures n < TWO31 ==> n % TWO32 == n
  {
  }

  /** A payload of 2^31 + 1 zero bytes is validly padded by one, and the code says it is not. */
  lemma LongPayloadDiffers(payload: seq<bv8>)
    requires |payload| == TWO31 + 1 && forall i | 0 <= i < |payload| :: payload[i] == 0
    ensures Plain(payload) == (1, 255) && Tested(payload) == (1, 0)
  {
    hide SignMask;
    SignMaskBit(TWO31);
    ZeroByte();
    assert Padded(payload);
  }
}
