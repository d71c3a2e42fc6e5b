/** Sequence numbers and AEAD nonces: within one key epoch no nonce is used twice. */
module Nonce {
  import opened Bits

  type Octets = seq<bv8>

  // ---- incSeq ----

  function Value(s: Octets): (r: nat)
  {
    if s == [] then 0 else 256 * Value(s[..|s| - 1]) + ToInt(s[|s| - 1])
  }

  function Next(b: bv8): (r: bv8) { b + 1 }

  lemma NextByte(b: bv8)
    ensures b != 255 ==> ToInt(Next(b)) == ToInt(b) + 1 && Next(b) != 0
    ensures b == 255 ==> Next(b) == 0 && ToInt(b) == 255
    ensures ToInt(0) == 0
  {
  }

  /** The big-endian successor; None when every byte is 255. */
  function Successor(s: Octets): (r: (Octets, bool))
    ensures |r.0| == |s|
  {
    if s == [] then ([], false) else
    var front, b := s[..|s| - 1], s[|s| - 1];
    if Next(b) != 0 then (front + [Next(b)], true) else (Successor(front).0 + [0], Successor(front).1)
  }

  lemma {:induction false} SuccessorAdds(s: Octets)
    ensures Successor(s).1 ==> Value(Successor(s).0) == Value(s) + 1
    ensures !Successor(s).1 ==> Value(s) + 1 == Pow(|s|) && Value(Successor(s).0) == 0
    ensures Value(s) < Pow(|s|)
  {
    hide Next, ToInt;
    if s != [] {
      var front, b := s[..|s| - 1], s[|s| - 1];
      SuccessorAdds(front);
      NextByte(b);
      var t := Successor(s).0;
      assert t[..|t| - 1] == if Next(b) != 0 then front else Successor(front).0;
    }
  }

  function Pow(n: nat): (r: nat) { if n == 0 then 1 else 256 * Pow(n - 1) }

  /** incSeq, in place; ok is false where the source panics instead of letting the number wrap. */
  method IncSeq(seq8: array<bv8>) returns (ok: bool)
    requires seq8.Length == 8
    modifies seq8
    ensures (seq8[..], ok) == Successor(old(seq8[..]))
  {
    hide Next;
    ghost var target := Successor(seq8[..]);
    var i := 8;
    ghost var zeros: Octets := [];
    assert seq8[..8] == seq8[..] && target.0 + [] == target.0;
    while i > 0
      invariant 0 <= i <= 8 && seq8[i..] == zeros
      invariant target == (Successor(seq8[..i]).0 + zeros, Successor(seq8[..i]).1)
    {
      i := i - 1;
      ghost var before := seq8[..i + 1];
      assert before[..i] == seq8[..i];
      seq8[i] := Next(seq8[i]);
      assert seq8[..i] == before[..i] && seq8[i + 1..] == zeros;
      assert seq8[i..] == [seq8[i]] + zeros;
      if seq8[i] != 0 {
        assert seq8[..] == seq8[..i] + [seq8[i]] + zeros;
        return true;
      }
      assert (Successor(seq8[..i]).0 + [0]) + zeros == Successor(seq8[..i]).0 + ([0] + zeros);
      zeros := [0] + zeros;
    }
    assert seq8[..] == [] + zeros;
    return false;
  }

  // ---- The two nonce wrappers ----

  datatype Kind = XorNonce | PrefixNonce

  function Xor(a: bv8, b: bv8): (r: bv8) { a ^ b }

  lemma XorTwice(a: bv8, b: bv8)
    ensures Xor(Xor(a, b), b) == a
  {
  }

  function XorAll(mask: Octets, nonce: Octets): (r: Octets)
    requires |mask| == |nonce|
    ensures |r| == |mask| && forall i | 0 <= i < |r| :: r[i] == Xor(mask[i], nonce[i])
  {
    seq(|mask|, i requires 0 <= i < |mask| => Xor(mask[i], nonce[i]))
  }

  /** The 12 bytes the underlying AEAD sees. */
  function Combined(kind: Kind, base: Octets, nonce: Octets): (r: Octets)
    requires |base| == 12 && |nonce| == 8
  {
    base[..4] + match kind case XorNonce => XorAll(base[4..], nonce) case PrefixNonce => nonce
  }

  lemma CombinedInjective(kind: Kind, base: Octets, n1: Octets, n2: Octets)
    requires |base| == 12 && |n1| == 8 && |n2| == 8 && Combined(kind, base, n1) == Combined(kind, base, n2)
    ensures n1 == n2
  {
    hide Xor;
    var c1, c2 := Combined(kind, base, n1), Combined(kind, base, n2);
    assert c1[4..] == c2[4..];
    if kind == XorNonce {
      assert c1[4..] == XorAll(base[4..], n1) && c2[4..] == XorAll(base[4..], n2);
      forall i | 0 <= i < 8 ensures n1[i] == n2[i] {
        assert XorAll(base[4..], n1)[i] == XorAll(base[4..], n2)[i];
        XorCancels(base[4..][i], n1[i], n2[i]);
      }
    } else {
      assert c1[4..] == n1 && c2[4..] == n2;
    }
  }

  lemma XorCancels(m: bv8, a: bv8, b: bv8)
    requires Xor(m, a) == Xor(m, b)
    ensures a == b
  {
  }

  /** prefixNonceAEAD and xorNonceAEAD: buf is the nonce or nonceMask array, base its contents when it
      was made. used lists the nonces handed to the underlying AEAD. */
  class Aead {
    const kind: Kind
    const buf: array<bv8>
    ghost const base: Octets
    ghost var used: seq<Octets>

    constructor (kind: Kind, base: Octets)
      requires |base| == 12
      ensures Valid() && this.kind == kind && this.base == base && used == [] && fresh(buf)
    {
      this.kind := kind;
      this.base := base;
      var a := new bv8[12](i requires 0 <= i < 12 => base[i]);
      this.buf := a;
      used := [];
      new;
      assert buf[..] == base;
    }

    ghost predicate Valid()
      reads this, buf
    {
      buf.Length == 12 && |base| == 12 && (if kind == XorNonce then buf[..] == base else buf[..4] == base[..4])
    }

    /** nonceMask[4+i] ^= b for each byte of the nonce. */
    method XorIn(nonce: Octets)
      requires buf.Length == 12 && |nonce| == 8
      modifies buf
      ensures buf[..4] == old(buf[..4]) && buf[4..] == XorAll(old(buf[4..]), nonce)
    {
      hide Xor;
      for i := 0 to 8
        invariant buf[..4] == old(buf[..4])
        invariant forall j | 0 <= j < i :: buf[4 + j] == Xor(old(buf[4 + j]), nonce[j])
        invariant forall j | 4 + i <= j < 12 :: buf[j] == old(buf[j])
      {
        buf[4 + i] := Xor(buf[4 + i], nonce[i]);
      }
    }

    method CopyIn(nonce: Octets)
      requires buf.Length == 12 && |nonce| == 8
      modifies buf
      ensures buf[..] == old(buf[..4]) + nonce
    {
      for i := 0 to 8
        invariant buf[..4] == old(buf[..4])
        invariant forall j | 0 <= j < i :: buf[4 + j] == nonce[j]
      {
        buf[4 + i] := nonce[i];
      }
    }

    /** Seal and Open are the same around the call: run is the underlying operation on the nonce. The
        mask is as before afterwards, and the operation saw the combination with the original mask. */
    method Call<R>(nonce: Octets, run: Octets -> R) returns (r: R)
      requires Valid() && |nonce| == 8
      modifies buf, this`used
      ensures Valid() && used == old(used) + [Combined(kind, base, nonce)]
      ensures r == run(Combined(kind, base, nonce))
    {
      if kind == XorNonce {
        XorIn(nonce);
        assert buf[..] == buf[..4] + buf[4..];
        used := used + [buf[..]];
        r := run(buf[..]);
        XorIn(nonce);
        XorRestores(base[4..], nonce);
        assert buf[..] == buf[..4] + buf[4..] && base == base[..4] + base[4..];
      } else {
        CopyIn(nonce);
        used := used + [buf[..]];
        r := run(buf[..]);
      }
    }
  }

  lemma XorRestores(mask: Octets, nonce: Octets)
    requires |mask| == |nonce|
    ensures XorAll(XorAll(mask, nonce), nonce) == mask
  {
    hide Xor;
    forall i | 0 <= i < |mask| ensures XorAll(XorAll(mask, nonce), nonce)[i] == mask[i] {
      XorTwice(mask[i], nonce[i]);
    }
  }

  // ---- One epoch ----

  /** The part of halfConn that protects records with an AEAD whose nonce is the sequence number, as
      implicit nonce or as explicit one. */
  class Epoch {
    const aead: Aead
    const seqNo: array<bv8>
    ghost var numbers: seq<Octets>

    ghost predicate Valid()
      reads this, aead, aead.buf, seqNo
    {
      && aead.Valid() && seqNo.Length == 8 && seqNo != aead.buf
      && |aead.used| == |numbers| == Value(seqNo[..])
      && forall i | 0 <= i < |numbers| ::
           && |numbers[i]| == 8 && Value(numbers[i]) == i
           && aead.used[i] == Combined(aead.kind, aead.base, numbers[i])
    }

    /** setTrafficSecret or changeCipherSpec: a new cipher and sequence number zero. */
    constructor (kind: Kind, base: Octets)
      requires |base| == 12
      ensures Valid() && Value(seqNo[..]) == 0 && fresh(seqNo) && fresh(aead) && fresh(aead.buf)
    {
      aead := new Aead(kind, base);
      seqNo := new bv8[8](_ => 0);
      numbers := [];
      new;
      ZeroValue(seqNo[..]);
    }

    /** One record: the operation runs on the nonce of the current number, then the number goes up. The
        source panics when it cannot; nothing may follow. */
    method Record<R>(run: Octets -> R) returns (r: R, ok: bool)
      requires Valid()
      modifies this, aead, aead.buf, seqNo
      ensures ok ==> Valid() && Value(seqNo[..]) == old(Value(seqNo[..])) + 1
      ensures ok <==> old(Value(seqNo[..])) + 1 < Pow(8)
      ensures old(aead.used) <= aead.used && |aead.used| == old(|aead.used|) + 1
      ensures NoRepeat(aead.used)
    {
      hide Combined, Successor, Pow, Value;
      var nonce := seqNo[..];
      r := aead.Call(nonce, run);
      numbers := numbers + [nonce];
      NoRepeats(aead.kind, aead.base, numbers, aead.used);
      SuccessorAdds(nonce);
      ok := IncSeq(seqNo);
      SuccessorAdds(seqNo[..]);
    }
  }

  ghost predicate NoRepeat(used: seq<Octets>)
  {
    forall i, j | 0 <= i < j < |used| :: used[i] != used[j]
  }

  lemma NoRepeats(kind: Kind, base: Octets, numbers: seq<Octets>, used: seq<Octets>)
    requires |base| == 12 && |used| == |numbers|
    requires forall i | 0 <= i < |numbers| ::
               |numbers[i]| == 8 && Value(numbers[i]) == i && used[i] == Combined(kind, base, numbers[i])
    ensures NoRepeat(used)
  {
    hide Combined, Value;
    forall i, j | 0 <= i < j < |used| ensures used[i] != used[j] {
      if used[i] == used[j] { CombinedInjective(kind, base, numbers[i], numbers[j]); }
    }
  }

  lemma {:induction false} ZeroValue(s: Octets)
    requires forall i | 0 <= i < |s| :: s[i] == 0
    ensures Value(s) == 0
  {
    if s != [] {
      ZeroValue(s[..|s| - 1]);
      NextByte(0);
    }
  }
}
