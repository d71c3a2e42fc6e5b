/** Byte strings, the big-endian readers of cryptobyte.String and the failing writers of
    cryptobyte.Builder. A reader takes the unread input and gives back a value and what is left
    of the input; a writer fails when a length does not fit its prefix. */
module Wire {
  const TLS10: nat := 0x0301
  const TLS11: nat := 0x0302
  const TLS12: nat := 0x0303
  const TLS13: nat := 0x0304

  type Byte = x: int | 0 <= x < 256
  type Bytes = seq<Byte>

  datatype Option<+T> = None | Some(value: T) {
    predicate IsFailure() { None? }
    function PropagateFailure<U>(): Option<U> requires None? { None }
    function Extract(): T requires Some? { value }
  }

  function Pow256(w: nat): (p: nat)
    ensures p >= 1
  {
    if w == 0 then 1 else 256 * Pow256(w - 1)
  }

  /** The w low bytes of n, most significant first. Higher bytes are dropped, as by Go's byte(n >> k). */
  function Uint(w: nat, n: nat): (b: Bytes)
    ensures |b| == w
  {
    if w == 0 then [] else Uint(w - 1, n / 256) + [n % 256]
  }

  function UintVal(b: Bytes): (n: nat)
  {
    if b == [] then 0 else 256 * UintVal(b[..|b| - 1]) + b[|b| - 1]
  }

  lemma {:induction false} UintValBound(b: Bytes)
    ensures UintVal(b) < Pow256(|b|)
  {
    if b != [] { UintValBound(b[..|b| - 1]); }
  }

  lemma {:induction false} UintTruncates(w: nat, n: nat)
    ensures UintVal(Uint(w, n)) == n % Pow256(w)
  {
    if w != 0 {
      UintTruncates(w - 1, n / 256);
      assert Uint(w, n)[..w - 1] == Uint(w - 1, n / 256);
      DivModPow(w, n);
    }
  }

  lemma DivModPow(w: nat, n: nat)
    requires w > 0
    ensures n % Pow256(w) == 256 * (n / 256 % Pow256(w - 1)) + n % 256
  {
    var p := Pow256(w - 1);
    var q, r := n / 256 / p, n / 256 % p;
    assert n / 256 == q * p + r;
    var low := 256 * r + n % 256;
    assert n == q * (256 * p) + low by {
      assert 256 * (q * p) == q * (256 * p);
    }
    assert 0 <= low < 256 * p;
    ModUnique(n, 256 * p, q, low);
  }

  lemma ModUnique(n: nat, d: nat, q: nat, r: nat)
    requires d > 0 && r < d && n == q * d + r
    ensures n % d == r
  {
    var q2, r2 := n / d, n % d;
    assert (q2 - q) * d == r - r2 by {
      assert n == q2 * d + r2;
      assert (q2 - q) * d == q2 * d - q * d;
    }
    MultipleSize(q2 - q, d);
  }

  lemma MultipleSize(k: int, d: int)
    requires d > 0
    ensures k >= 1 ==> k * d >= d
    ensures k <= -1 ==> k * d <= -d
  {
    if k >= 1 {
      assert (k - 1) * d >= 0;
    } else if k <= -1 {
      assert (-1 - k) * d >= 0;
    }
  }

  lemma {:induction false} UintOfVal(b: Bytes)
    ensures Uint(|b|, UintVal(b)) == b
  {
    if b != [] {
      UintOfVal(b[..|b| - 1]);
    }
  }

  lemma UintValFits(w: nat, n: nat)
    requires n < Pow256(w)
    ensures UintVal(Uint(w, n)) == n
  {
    UintTruncates(w, n);
  }

  lemma Pow256Values()
    ensures Pow256(1) == 0x100 && Pow256(2) == 0x1_0000 && Pow256(3) == 0x100_0000
    ensures Pow256(4) == 0x1_0000_0000 && Pow256(8) == 0x1_0000_0000_0000_0000
  {
    assert Pow256(2) == 256 * Pow256(1);
    assert Pow256(4) == 256 * Pow256(3);
    assert Pow256(6) == 256 * (256 * Pow256(4));
    assert Pow256(8) == 256 * (256 * Pow256(6));
  }

  // ---- Concatenations ----

  lemma Assoc(a: Bytes, b: Bytes, c: Bytes)
    ensures (a + b) + c == a + (b + c) && a + (b + c) + [] == a + (b + c)
  {
  }

  lemma Slices(a: Bytes, b: Bytes, c: Bytes)
    ensures (a + b + c)[..|a|] == a && (a + b + c)[|a|..|a| + |b|] == b && (a + b + c)[|a| + |b|..] == c
  {
  }

  // ---- Readers and writers ----

  function ReadBytes(n: nat, s: Bytes): (r: Option<(Bytes, Bytes)>)
  {
    if |s| < n then None else Some((s[..n], s[n..]))
  }

  function ReadUint(w: nat, s: Bytes): (r: Option<(nat, Bytes)>)
  {
    if |s| < w then None else Some((UintVal(s[..w]), s[w..]))
  }

  /** A w-byte length, then that many bytes. */
  function ReadPrefixed(w: nat, s: Bytes): (r: Option<(Bytes, Bytes)>)
  {
    if |s| < w then None else ReadBytes(UintVal(s[..w]), s[w..])
  }

  function Prefixed(w: nat, body: Bytes): (r: Option<Bytes>)
  {
    if |body| < Pow256(w) then Some(Uint(w, |body|) + body) else None
  }

  lemma ReadUintWritten(w: nat, n: nat, rest: Bytes)
    requires n < Pow256(w)
    ensures ReadUint(w, Uint(w, n) + rest) == Some((n, rest))
  {
    UintValFits(w, n);
    assert (Uint(w, n) + rest)[..w] == Uint(w, n);
    assert (Uint(w, n) + rest)[w..] == rest;
  }

  lemma ReadPrefixedWritten(w: nat, body: Bytes, rest: Bytes)
    requires |body| < Pow256(w)
    ensures ReadPrefixed(w, Uint(w, |body|) + body + rest) == Some((body, rest))
  {
    UintValFits(w, |body|);
    var s := Uint(w, |body|) + body + rest;
    assert s[..w] == Uint(w, |body|);
    assert s[w..] == body + rest;
    assert (body + rest)[..|body|] == body;
    assert (body + rest)[|body|..] == rest;
  }

  lemma ReadPrefixedSound(w: nat, s: Bytes)
    requires ReadPrefixed(w, s).Some?
    ensures var (body, rest) := ReadPrefixed(w, s).value;
            Prefixed(w, body) == Some(Uint(w, |body|) + body) && s == Uint(w, |body|) + body + rest
  {
    var (body, rest) := ReadPrefixed(w, s).value;
    UintValBound(s[..w]);
    UintOfVal(s[..w]);
    assert s == s[..w] + s[w..];
  }

  // ---- Lists of items ----

  /** The cursor loop `for !s.Empty() { read one item }`. Every item reader used here consumes
      input, so the length test never decides anything; it is what makes the recursion well founded. */
  function ReadAll<T>(item: Bytes -> Option<(T, Bytes)>, s: Bytes): (r: Option<seq<T>>)
    decreases |s|
  {
    if s == [] then Some([]) else
    var (x, rest) :- item(s);
    if |rest| >= |s| then None else
    var xs :- ReadAll(item, rest);
    Some([x] + xs)
  }

  function WriteAll<T>(enc: T -> Option<Bytes>, xs: seq<T>): (r: Option<Bytes>)
  {
    if xs == [] then Some([]) else
    var b :- enc(xs[0]);
    var bs :- WriteAll(enc, xs[1..]);
    Some(b + bs)
  }

  /** item reads the encoding b back as x whatever follows it. */
  ghost predicate ReadsBack<T>(item: Bytes -> Option<(T, Bytes)>, b: Bytes, x: T)
  {
    b != [] && forall rest: Bytes :: item(b + rest) == Some((x, rest))
  }

  /** item refuses the encoding b whatever follows it. */
  ghost predicate Refuses<T>(item: Bytes -> Option<(T, Bytes)>, b: Bytes)
  {
    b != [] && forall rest: Bytes :: item(b + rest) == None
  }

  /** Reading a written list gives it back when every element is acceptable and fails otherwise. */
  lemma {:induction false} ReadAllWritten<T>(item: Bytes -> Option<(T, Bytes)>, enc: T -> Option<Bytes>,
                                             ok: T -> bool, xs: seq<T>)
    requires WriteAll(enc, xs).Some?
    requires forall x | x in xs && enc(x).Some? ::
               if ok(x) then ReadsBack(item, enc(x).value, x) else Refuses(item, enc(x).value)
    ensures ReadAll(item, WriteAll(enc, xs).value) ==
            if forall x | x in xs :: ok(x) then Some(xs) else None
  {
    if xs != [] {
      var b, tail := enc(xs[0]).value, WriteAll(enc, xs[1..]).value;
      assert xs[0] in xs;
      forall x | x in xs[1..] ensures x in xs {}
      ReadAllWritten(item, enc, ok, xs[1..]);
      assert xs == [xs[0]] + xs[1..];
      if ok(xs[0]) {
        assert item(b + tail) == Some((xs[0], tail));
        assert |tail| < |b + tail|;
        assert (forall x | x in xs :: ok(x)) == (forall x | x in xs[1..] :: ok(x));
      } else {
        assert item(b + tail) == None;
      }
    }
  }

  lemma {:induction false} WriteAllNonEmpty<T>(enc: T -> Option<Bytes>, xs: seq<T>)
    requires WriteAll(enc, xs).Some?
    requires forall x | x in xs && enc(x).Some? :: enc(x).value != []
    ensures WriteAll(enc, xs).value == [] <==> xs == []
  {
    if xs != [] { assert xs[0] in xs; }
  }

  lemma {:induction false} WriteAllAppend<T>(enc: T -> Option<Bytes>, xs: seq<T>, ys: seq<T>)
    ensures WriteAll(enc, xs + ys) ==
            if WriteAll(enc, xs).Some? && WriteAll(enc, ys).Some?
            then Some(WriteAll(enc, xs).value + WriteAll(enc, ys).value) else None
  {
    if xs == [] {
      assert xs + ys == ys;
      assert forall b: Bytes :: [] + b == b;
    } else {
      assert (xs + ys)[1..] == xs[1..] + ys;
      WriteAllAppend(enc, xs[1..], ys);
      if enc(xs[0]).Some? && WriteAll(enc, xs[1..]).Some? && WriteAll(enc, ys).Some? {
        var b, t, u := enc(xs[0]).value, WriteAll(enc, xs[1..]).value, WriteAll(enc, ys).value;
        assert b + (t + u) == (b + t) + u;
      }
    }
  }

  /** Everything item accepts, enc writes back: a parsed list re-encodes to the bytes it came from. */
  lemma {:induction false} WriteAllOfRead<T>(item: Bytes -> Option<(T, Bytes)>, enc: T -> Option<Bytes>, s: Bytes)
    requires ReadAll(item, s).Some?
    requires forall t: Bytes | item(t).Some? ::
               enc(item(t).value.0).Some? && t == enc(item(t).value.0).value + item(t).value.1
    ensures WriteAll(enc, ReadAll(item, s).value) == Some(s)
    decreases |s|
  {
    if s != [] {
      var (x, rest) := item(s).value;
      WriteAllOfRead(item, enc, rest);
      var xs := ReadAll(item, rest).value;
      assert ([x] + xs)[1..] == xs;
    }
  }

  // ---- Cursor loops ----

  /** Where a cursor loop stands: the items of all are those in done and then those still in s. */
  ghost predicate Reached<T(!new)>(item: Bytes -> Option<(T, Bytes)>, all: Bytes, done: seq<T>, s: Bytes)
  {
    ReadAll(item, all) == if ReadAll(item, s).Some? then Some(done + ReadAll(item, s).value) else None
  }

  lemma ReachedStart<T(!new)>(item: Bytes -> Option<(T, Bytes)>, all: Bytes)
    ensures Reached(item, all, [], all)
  {
    assert forall xs: seq<T> :: [] + xs == xs;
  }

  lemma ReachedNext<T(!new)>(item: Bytes -> Option<(T, Bytes)>, all: Bytes, done: seq<T>, s: Bytes)
    requires Reached(item, all, done, s) && s != [] && (item(s).Some? ==> |item(s).value.1| < |s|)
    ensures if item(s).None? then ReadAll(item, all) == None
            else Reached(item, all, done + [item(s).value.0], item(s).value.1)
  {
    if item(s).Some? && ReadAll(item, item(s).value.1).Some? {
      var x, xs := item(s).value.0, ReadAll(item, item(s).value.1).value;
      assert done + ([x] + xs) == done + [x] + xs;
    }
  }

  lemma ReachedEnd<T(!new)>(item: Bytes -> Option<(T, Bytes)>, all: Bytes, done: seq<T>)
    requires Reached(item, all, done, [])
    ensures ReadAll(item, all) == Some(done)
  {
    assert done + [] == done;
  }

  // ---- Sixteen-bit numbers ----

  function ReadU16(s: Bytes): (r: Option<(nat, Bytes)>) { ReadUint(2, s) }
  function WriteU16(n: nat): (r: Option<Bytes>) { if n < 0x1_0000 then Some(Uint(2, n)) else None }

  lemma U16sReadBack(ns: seq<nat>)
    requires WriteAll(WriteU16, ns).Some?
    ensures ReadAll(ReadU16, WriteAll(WriteU16, ns).value) == Some(ns)
  {
    forall n | n in ns && WriteU16(n).Some? ensures ReadsBack(ReadU16, WriteU16(n).value, n) {
      Pow256Values();
      forall rest: Bytes { ReadUintWritten(2, n, rest); }
    }
    ReadAllWritten(ReadU16, WriteU16, n => true, ns);
  }
}
