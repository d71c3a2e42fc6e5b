/** The pre_shared_key extension as u_pre_shared_key.go writes it into a buffer, reads it back, and
    patches its binders into a hello that is already marshalled. */
module Psk {
  import opened Wire
  import opened ClientHello

  // ---- Encoding with truncating length fields ----

  function Cat<T>(enc: T -> Bytes, xs: seq<T>): (r: Bytes)
  {
    if xs == [] then [] else Cat(enc, xs[..|xs| - 1]) + enc(xs[|xs| - 1])
  }

  function IdentityBytes(id: PskIdentity): (r: Bytes)
    ensures |r| == 6 + |id.ticket|
  {
    Uint(2, |id.ticket|) + id.ticket + Uint(4, id.age)
  }

  function BinderBytes(b: Bytes): (r: Bytes)
    ensures |r| == 1 + |b|
  {
    Uint(1, |b|) + b
  }

  /** The data of the extension: two lists, each behind a 16-bit length. */
  function BodyBytes(ids: seq<PskIdentity>, bs: seq<Bytes>): (r: Bytes)
  {
    Uint(2, |Cat(IdentityBytes, ids)|) + Cat(IdentityBytes, ids) +
    Uint(2, |Cat(BinderBytes, bs)|) + Cat(BinderBytes, bs)
  }

  function ExtBytes(ids: seq<PskIdentity>, bs: seq<Bytes>): (r: Bytes)
  {
    Uint(2, PRE_SHARED_KEY) + Uint(2, |BodyBytes(ids, bs)|) + BodyBytes(ids, bs)
  }

  // ---- readPskIntoBytes ----

  /** Writes src behind a finished prefix: copy(b[offset:], src); offset += len(src). */
  method Append(b: array<Byte>, ghost done: Bytes, offset: nat, src: Bytes) returns (next: nat)
    requires offset == |done| && offset + |src| <= b.Length && b[..offset] == done
    modifies b
    ensures next == offset + |src| && b[..next] == done + src
    ensures b[next..] == old(b[next..])
  {
    for i := 0 to |src|
      invariant b[..offset] == done
      invariant forall j | 0 <= j < i :: b[offset + j] == src[j]
      invariant forall j | offset + i <= j < b.Length :: b[j] == old(b[j])
    {
      b[offset + i] := src[i];
    }
    next := offset + |src|;
    assert b[..next] == b[..offset] + b[offset..next];
  }

  lemma {:induction false} CatPrefix<T>(enc: T -> Bytes, xs: seq<T>, i: nat)
    requires i <= |xs|
    ensures Cat(enc, xs[..i]) <= Cat(enc, xs)
    decreases |xs| - i
  {
    if i == |xs| {
      assert xs[..i] == xs;
    } else {
      CatPrefix(enc, xs, i + 1);
      assert xs[..i + 1][..i] == xs[..i];
    }
  }

  /** One of the two list loops. */
  method AppendAll<T>(b: array<Byte>, ghost done: Bytes, start: nat, enc: T -> Bytes, xs: seq<T>) returns (offset: nat)
    requires start == |done| && start + |Cat(enc, xs)| <= b.Length && b[..start] == done
    modifies b
    ensures offset == start + |Cat(enc, xs)| && b[..offset] == done + Cat(enc, xs)
    ensures b[offset..] == old(b[offset..])
  {
    offset := start;
    ghost var end := start + |Cat(enc, xs)|;
    for i := 0 to |xs|
      invariant Cat(enc, xs[..i]) <= Cat(enc, xs)
      invariant offset == start + |Cat(enc, xs[..i])| && b[..offset] == done + Cat(enc, xs[..i])
      invariant b[end..] == old(b[end..])
    {
      CatPrefix(enc, xs, i + 1);
      assert xs[..i + 1][..i] == xs[..i];
      ghost var before := done + Cat(enc, xs[..i]);
      offset := Append(b, before, offset, enc(xs[i]));
      assert before + enc(xs[i]) == done + Cat(enc, xs[..i + 1]);
      assert b[end..] == b[offset..][end - offset..];
    }
    assert xs[..|xs|] == xs;
  }

  datatype ReadError = Eof | ShortBuffer

  function HeadBytes(ids: seq<PskIdentity>, bs: seq<Bytes>): (r: Bytes)
    ensures |r| == 6
  {
    Uint(2, PRE_SHARED_KEY) + Uint(2, |BodyBytes(ids, bs)|) + Uint(2, |Cat(IdentityBytes, ids)|)
  }

  lemma ExtParts(ids: seq<PskIdentity>, bs: seq<Bytes>)
    ensures ExtBytes(ids, bs) ==
      HeadBytes(ids, bs) + Cat(IdentityBytes, ids) + Uint(2, |Cat(BinderBytes, bs)|) + Cat(BinderBytes, bs)
  {
  }

  /** readPskIntoBytes. EOF is Go's signal that everything was written. */
  method ReadPskIntoBytes(b: array<Byte>, ids: seq<PskIdentity>, bs: seq<Bytes>) returns (n: nat, err: ReadError)
    modifies b
    ensures err == ShortBuffer <==> ids != [] && bs != [] && b.Length < |ExtBytes(ids, bs)|
    ensures n == if ids == [] || bs == [] || err == ShortBuffer then 0 else |ExtBytes(ids, bs)|
    ensures n == 0 ==> b[..] == old(b[..])
    ensures n != 0 ==> b[..n] == ExtBytes(ids, bs) && b[n..] == old(b[n..])
  {
    hide Cat, ExtBytes, HeadBytes, Uint;
    if ids == [] || bs == [] { return 0, Eof; }
    ExtParts(ids, bs);
    n := |ExtBytes(ids, bs)|;
    if b.Length < n { return 0, ShortBuffer; }
    ghost var head, i, k := HeadBytes(ids, bs), Cat(IdentityBytes, ids), Uint(2, |Cat(BinderBytes, bs)|);
    var offset := Append(b, [], 0, HeadBytes(ids, bs));
    assert b[..offset] == head;
    assert b[n..] == b[offset..][n - offset..];
    offset := AppendAll(b, head, offset, IdentityBytes, ids);
    assert b[n..] == b[offset..][n - offset..];
    offset := Append(b, head + i, offset, Uint(2, |Cat(BinderBytes, bs)|));
    assert b[n..] == b[offset..][n - offset..];
    offset := AppendAll(b, head + i + k, offset, BinderBytes, bs);
    return n, Eof;
  }

  // ---- FakePreSharedKeyExtension.Write ----

  function Wrap16(n: int): (r: nat)
    ensures r < 0x1_0000
  {
    n % 0x1_0000
  }

  /** One round of the identities loop: the identity, the unread input and the counter, which is a
      uint16 and wraps. */
  function NextIdentity(s: Bytes, left: nat): (r: Option<(PskIdentity, Bytes, nat)>)
    ensures r.Some? ==> |r.value.1| < |s|
  {
    var (len, r1) :- ReadUint(2, s);
    var left1 := Wrap16(left - 2);
    if len > left1 || |r1| < len || |r1| < len + 4 then None else
    Some((PskIdentity(r1[..len], UintVal(r1[len..len + 4])), r1[len + 4..], Wrap16(left1 - len - 4)))
  }

  /** The identities loop: what it has appended, and the unread input unless it failed. */
  function ParseIdentities(s: Bytes, left: nat): (r: (seq<PskIdentity>, Option<Bytes>))
    decreases |s|
  {
    if left == 0 then ([], Some(s)) else
    match NextIdentity(s, left)
    case None => ([], None)
    case Some((id, rest, left')) =>
      var (more, end) := ParseIdentities(rest, left');
      ([id] + more, end)
  }

  function NextBinder(s: Bytes, left: nat): (r: Option<(Bytes, Bytes, nat)>)
    requires left > 0
    ensures r.Some? ==> |r.value.1| < |s|
  {
    var (len, r1) :- ReadUint(1, s);
    if len > left - 1 || |r1| < len then None else Some((r1[..len], r1[len..], left - 1 - len))
  }

  function ParseBinders(s: Bytes, left: nat): (r: (seq<Bytes>, Option<Bytes>))
    decreases |s|
  {
    if left == 0 then ([], Some(s)) else
    match NextBinder(s, left)
    case None => ([], None)
    case Some((b, rest, left')) =>
      var (more, end) := ParseBinders(rest, left');
      ([b] + more, end)
  }

  class FakePreSharedKey {
    var identities: seq<PskIdentity>
    var binders: seq<Bytes>

    /** Write parses b and appends what it reads. A failed call keeps what it had already appended,
        and bytes after the binder list are ignored. */
    method Write(b: Bytes) returns (n: nat, ok: bool)
      modifies this
      ensures ok ==> n == |b|
      ensures !ok ==> n == 0
      ensures |b| < 2 ==> !ok && identities == old(identities) && binders == old(binders)
      ensures |b| >= 2 ==>
        var (ids, rest) := ParseIdentities(b[2..], UintVal(b[..2]));
        && identities == old(identities) + ids
        && (rest.None? || |rest.value| < 2 ==> !ok && binders == old(binders))
        && (rest.Some? && |rest.value| >= 2 ==>
              var (bs, after) := ParseBinders(rest.value[2..], UintVal(rest.value[..2]));
              binders == old(binders) + bs && ok == after.Some?)
    {
      if |b| < 2 { return 0, false; }
      var s, ok1 := WriteIdentities(b[2..], UintVal(b[..2]));
      if !ok1 || |s| < 2 { return 0, false; }
      ok := WriteBinders(s[2..], UintVal(s[..2]));
      return if ok then |b| else 0, ok;
    }

    /** The first loop of Write. */
    method WriteIdentities(b: Bytes, length: nat) returns (s: Bytes, ok: bool)
      modifies this
      ensures var (ids, rest) := ParseIdentities(b, length);
        && identities == old(identities) + ids && binders == old(binders)
        && rest == if ok then Some(s) else None
    {
      var left: int := length;
      s := b;
      ghost var spec, done: seq<PskIdentity> := ParseIdentities(s, left), [];
      assert done + spec.0 == spec.0;
      while left > 0
        invariant left >= 0 && identities == old(identities) + done && binders == old(binders)
        invariant spec == (done + ParseIdentities(s, left).0, ParseIdentities(s, left).1)
        decreases |s|, left
      {
        ghost var before, wasLeft := s, left;
        if |s| < 2 { return s, false; }
        var len := UintVal(s[..2]);
        s := s[2..];
        left := Wrap16(left - 2);
        if len > left || |s| < len || |s| < len + 4 { return s, false; }
        var id := PskIdentity(s[..len], UintVal(s[len..len + 4]));
        identities := identities + [id];
        left := Wrap16(left - len - 4);
        s := s[len + 4..];
        assert NextIdentity(before, wasLeft) == Some((id, s, left));
        ghost var more := ParseIdentities(s, left).0;
        assert (done + [id]) + more == done + ([id] + more);
        done := done + [id];
      }
      assert done + [] == done;
      ok := true;
    }

    /** The second loop of Write. */
    method WriteBinders(b: Bytes, length: nat) returns (ok: bool)
      modifies this
      ensures var (bs, rest) := ParseBinders(b, length);
        binders == old(binders) + bs && identities == old(identities) && ok == rest.Some?
    {
      var left: int := length;
      var s := b;
      ghost var spec, done: seq<Bytes> := ParseBinders(s, left), [];
      assert done + spec.0 == spec.0;
      while left > 0
        invariant left >= 0 && identities == old(identities) && binders == old(binders) + done
        invariant spec == (done + ParseBinders(s, left).0, ParseBinders(s, left).1)
        decreases |s|, left
      {
        ghost var before, wasLeft := s, left;
        if |s| < 1 { return false; }
        var len := UintVal(s[..1]);
        s := s[1..];
        left := left - 1;
        if len > left || |s| < len { return false; }
        var binder := s[..len];
        binders := binders + [binder];
        left := left - len;
        s := s[len..];
        assert NextBinder(before, wasLeft) == Some((binder, s, left));
        ghost var more := ParseBinders(s, left).0;
        assert (done + [binder]) + more == done + ([binder] + more);
        done := done + [binder];
      }
      assert done + [] == done;
      ok := true;
    }
  }

  // ---- Write undoes the encoding ----

  lemma {:induction false} CatCons<T>(enc: T -> Bytes, x: T, xs: seq<T>)
    ensures Cat(enc, [x] + xs) == enc(x) + Cat(enc, xs)
  {
    if xs == [] {
      assert [x] + xs == [x] && [x][..0] == [];
    } else {
      var last := |xs| - 1;
      assert ([x] + xs)[..|xs|] == [x] + xs[..last];
      CatCons(enc, x, xs[..last]);
    }
  }

  lemma CatNone<T>(enc: T -> Bytes)
    ensures Cat(enc, []) == []
  {
  }

  lemma CatHead<T>(enc: T -> Bytes, xs: seq<T>)
    requires xs != []
    ensures Cat(enc, xs) == enc(xs[0]) + Cat(enc, xs[1..])
  {
    CatCons(enc, xs[0], xs[1..]);
    assert [xs[0]] + xs[1..] == xs;
  }

  lemma TwoByteHead(n: nat, rest: Bytes)
    ensures |Uint(2, n) + rest| >= 2
    ensures (Uint(2, n) + rest)[2..] == rest && UintVal((Uint(2, n) + rest)[..2]) == Wrap16(n)
  {
    Pow256Values();
    UintTruncates(2, n);
    assert (Uint(2, n) + rest)[..2] == Uint(2, n);
  }

  /** One round over a written identity: it comes back when the counter lets it through, and
      otherwise there is an error or a wrong ticket. */
  lemma NextIdentityWritten(id: PskIdentity, more: Bytes, left: nat)
    requires id.age < 0x1_0000_0000
    ensures var r := NextIdentity(IdentityBytes(id) + more, left);
      if |id.ticket| <= Wrap16(left - 2) then r == Some((id, more, Wrap16(Wrap16(left - 2) - |id.ticket| - 4)))
      else r.None? || r.value.0 != id
  {
    hide Uint, UintVal, Pow256, Wrap16;
    var n, r1 := |id.ticket|, id.ticket + Uint(4, id.age) + more;
    assert IdentityBytes(id) + more == Uint(2, n) + r1;
    TwoByteHead(n, r1);
    Slices(id.ticket, Uint(4, id.age), more);
    Pow256Values();
    UintValFits(4, id.age);
    WrapBound(n);
  }

  lemma NextIdentitySound(s: Bytes, left: nat)
    requires NextIdentity(s, left).Some?
    ensures var (id, rest, left') := NextIdentity(s, left).value;
      s == IdentityBytes(id) + rest && left' == Wrap16(Wrap16(left - 2) - |id.ticket| - 4)
  {
    var r1 := s[2..];
    var len := UintVal(s[..2]);
    UintOfVal(s[..2]);
    UintOfVal(r1[len..len + 4]);
    hide Uint, UintVal;
    assert s == s[..2] + (r1[..len] + r1[len..len + 4] + r1[len + 4..]);
  }

  /** The counter's two subtractions, modulo 2^16. */
  lemma WrapTwice(left: int, len: int)
    ensures Wrap16(Wrap16(left - 2) - len - 4) == Wrap16(left - 6 - len)
  {
    var q := (left - 2) / 0x1_0000;
    ShiftWrap(left - 6 - len, -q);
  }

  lemma WrapSmall(n: nat)
    requires n < 0x1_0000
    ensures Wrap16(n) == n
  {
  }

  lemma WrapBound(n: nat)
    ensures Wrap16(n) != n ==> n >= 0x1_0000
  {
  }

  lemma ShiftWrap(n: int, k: int)
    ensures Wrap16(n + k * 0x1_0000) == Wrap16(n)
  {
  }

  /** The wrapped counter never reaches zero early and never falls below an identity's length. */
  predicate CounterHolds(ids: seq<PskIdentity>)
  {
    ids == [] ||
    var left := Wrap16(|Cat(IdentityBytes, ids)|);
    left != 0 && |ids[0].ticket| <= Wrap16(left - 2) && CounterHolds(ids[1..])
  }

  /** When the list fits its length field the counter holds. */
  lemma {:induction false} FittingHolds(ids: seq<PskIdentity>)
    requires |Cat(IdentityBytes, ids)| < 0x1_0000
    ensures CounterHolds(ids)
  {
    if ids != [] {
      CatHead(IdentityBytes, ids);
      hide Cat;
      FittingHolds(ids[1..]);
    }
  }

  lemma StepWrap(total: nat, len: nat)
    requires 6 + len <= total
    ensures Wrap16(Wrap16(Wrap16(total) - 2) - len - 4) == Wrap16(total - 6 - len)
  {
    WrapTwice(total % 0x1_0000, len);
    ShiftWrap(total % 0x1_0000 - 6 - len, total / 0x1_0000);
  }

  /** The identities come back exactly when the 16-bit counter holds on the way. */
  lemma {:induction false} IdentitiesReadBack(ids: seq<PskIdentity>, rest: Bytes)
    requires forall id | id in ids :: id.age < 0x1_0000_0000
    ensures ParseIdentities(Cat(IdentityBytes, ids) + rest, Wrap16(|Cat(IdentityBytes, ids)|)) == (ids, Some(rest))
            <==> CounterHolds(ids)
  {
    hide Cat, NextIdentity, IdentityBytes, Wrap16;
    WrapSmall(0);
    if ids == [] {
      CatNone(IdentityBytes);
      assert [] + rest == rest;
    } else if Wrap16(|Cat(IdentityBytes, ids)|) != 0 {
      CatHead(IdentityBytes, ids);
      var id, size, tail := ids[0], |Cat(IdentityBytes, ids)|, Cat(IdentityBytes, ids[1..]);
      Assoc(IdentityBytes(id), tail, rest);
      NextIdentityWritten(id, tail + rest, Wrap16(size));
      if |id.ticket| <= Wrap16(Wrap16(size) - 2) {
        StepWrap(size, |id.ticket|);
        IdentitiesReadBack(ids[1..], rest);
        ConsEqual(id, ParseIdentities(tail + rest, Wrap16(|tail|)).0, ids);
      }
    }
  }

  lemma ConsEqual(id: PskIdentity, got: seq<PskIdentity>, ids: seq<PskIdentity>)
    requires ids != [] && ids[0] == id
    ensures [id] + got == ids <==> got == ids[1..]
  {
    assert ([id] + got)[1..] == got && ids == [id] + ids[1..];
  }

  predicate BindersReadable(bs: seq<Bytes>)
  {
    |Cat(BinderBytes, bs)| < 0x1_0000 && forall b | b in bs :: |b| < 256
  }

  /** A successful pass over the binders takes exactly the bytes it was told to, and they are the
      encoding of what it returns. */
  lemma {:induction false} BindersSound(s: Bytes, left: nat)
    requires ParseBinders(s, left).1.Some?
    ensures var (bs, rest) := ParseBinders(s, left);
      s == Cat(BinderBytes, bs) + rest.value && |Cat(BinderBytes, bs)| == left && forall b | b in bs :: |b| < 256
    decreases |s|
  {
    if left == 0 {
      assert Cat(BinderBytes, []) + s == s;
    } else {
      NextBinderSound(s, left);
      var (b, rest, left') := NextBinder(s, left).value;
      BindersSound(rest, left');
      var (more, end) := ParseBinders(rest, left');
      hide Cat, NextBinder, BinderBytes;
      CatCons(BinderBytes, b, more);
      Assoc(BinderBytes(b), Cat(BinderBytes, more), end.value);
    }
  }

  lemma NextBinderSound(s: Bytes, left: nat)
    requires left > 0 && NextBinder(s, left).Some?
    ensures var (b, rest, left') := NextBinder(s, left).value;
      s == BinderBytes(b) + rest && left == 1 + |b| + left' && |b| < 256
  {
    Pow256Values();
    UintValBound(s[..1]);
    UintOfVal(s[..1]);
    hide Uint, UintVal;
  }

  lemma NextBinderWritten(b: Bytes, more: Bytes, left: nat)
    requires |b| < 256 && |b| + 1 <= left
    ensures NextBinder(BinderBytes(b) + more, left) == Some((b, more, left - 1 - |b|))
  {
    Pow256Values();
    ReadUintWritten(1, |b|, b + more);
    assert BinderBytes(b) + more == Uint(1, |b|) + (b + more);
    assert (b + more)[..|b|] == b && (b + more)[|b|..] == more;
  }

  lemma {:induction false} BindersComplete(bs: seq<Bytes>, rest: Bytes)
    requires forall b | b in bs :: |b| < 256
    ensures ParseBinders(Cat(BinderBytes, bs) + rest, |Cat(BinderBytes, bs)|) == (bs, Some(rest))
  {
    if bs == [] {
      assert Cat(BinderBytes, bs) + rest == rest;
    } else {
      var b, tail := bs[0], Cat(BinderBytes, bs[1..]);
      CatHead(BinderBytes, bs);
      hide Cat, NextBinder, BinderBytes;
      BindersComplete(bs[1..], rest);
      NextBinderWritten(b, tail + rest, 1 + |b| + |tail|);
      Assoc(BinderBytes(b), tail, rest);
      assert [b] + bs[1..] == bs;
    }
  }

  /** The second list comes back exactly when it fits. */
  lemma BindersReadBack(bs: seq<Bytes>)
    ensures var got := ParseBinders(Cat(BinderBytes, bs), Wrap16(|Cat(BinderBytes, bs)|));
            got.0 == bs && got.1.Some? <==> BindersReadable(bs)
  {
    hide Cat, ParseBinders;
    var k := Cat(BinderBytes, bs);
    var got := ParseBinders(k, Wrap16(|k|));
    if BindersReadable(bs) {
      BindersComplete(bs, []);
      assert k + [] == k;
    }
    if got.0 == bs && got.1.Some? { BindersSound(k, Wrap16(|k|)); }
  }

  // ---- Write as a whole ----

  /** What Write leaves in an empty FakePreSharedKeyExtension, None when it reports an error. */
  function Written(b: Bytes): (r: Option<(seq<PskIdentity>, seq<Bytes>)>)
  {
    if |b| < 2 then None else
    var (ids, rest) := ParseIdentities(b[2..], UintVal(b[..2]));
    if rest.None? || |rest.value| < 2 then None else
    var (bs, after) := ParseBinders(rest.value[2..], UintVal(rest.value[..2]));
    if after.None? then None else Some((ids, bs))
  }

  /** Whatever input a successful pass over the identities had, it is the encoding of what it returns
      followed by what is left; the counter fixes the size only modulo 2^16. */
  lemma {:induction false} IdentitiesSound(s: Bytes, left: nat)
    requires ParseIdentities(s, left).1.Some? && left < 0x1_0000
    ensures var (ids, rest) := ParseIdentities(s, left);
      s == Cat(IdentityBytes, ids) + rest.value && Wrap16(|Cat(IdentityBytes, ids)|) == left
    decreases |s|
  {
    hide Cat, NextIdentity, IdentityBytes, Wrap16;
    WrapSmall(0);
    if left == 0 {
      CatNone(IdentityBytes);
      assert [] + s == s;
    } else {
      NextIdentitySound(s, left);
      var (id, rest, left') := NextIdentity(s, left).value;
      IdentitiesSound(rest, left');
      var (more, end) := ParseIdentities(rest, left');
      assert ParseIdentities(s, left) == ([id] + more, end);
      CatCons(IdentityBytes, id, more);
      Assoc(IdentityBytes(id), Cat(IdentityBytes, more), end.value);
      UnwrapStep(left, |id.ticket|, |Cat(IdentityBytes, more)|);
    }
  }

  lemma UnwrapStep(left: nat, len: nat, tail: nat)
    requires left < 0x1_0000 && Wrap16(tail) == Wrap16(Wrap16(left - 2) - len - 4)
    ensures Wrap16(6 + len + tail) == left
  {
    WrapTwice(left, len);
    var q := tail / 0x1_0000 - (left - 6 - len) / 0x1_0000;
    assert 6 + len + tail == left + q * 0x1_0000;
    ShiftWrap(left, q);
  }

  /** Write restores what was encoded exactly when every binder fits its 8-bit length, the binders
      their 16-bit one, and the wrapped counter carries the identities. */
  lemma WriteReadsBack(ids: seq<PskIdentity>, bs: seq<Bytes>)
    requires forall id | id in ids :: id.age < 0x1_0000_0000
    ensures Written(BodyBytes(ids, bs)) == Some((ids, bs)) <==> CounterHolds(ids) && BindersReadable(bs)
  {
    hide Cat, ParseIdentities, ParseBinders, CounterHolds, BindersReadable, Uint, UintVal, Wrap16;
    var i, k := Cat(IdentityBytes, ids), Cat(BinderBytes, bs);
    var tail := Uint(2, |k|) + k;
    assert BodyBytes(ids, bs) == Uint(2, |i|) + (i + tail);
    TwoByteHead(|i|, i + tail);
    IdentitiesReadBack(ids, tail);
    var got := ParseIdentities(i + tail, Wrap16(|i|));
    if got.0 == ids && got.1.Some? {
      IdentitiesSound(i + tail, Wrap16(|i|));
      assert (i + tail)[|i|..] == tail && (i + got.1.value)[|i|..] == got.1.value;
    }
    TwoByteHead(|k|, k);
    BindersReadBack(bs);
  }

  /** One identity of 65536 bytes is lost: its length field reads zero. */
  lemma OversizedIsLost(bs: seq<Bytes>)
    ensures var ids := [PskIdentity(seq(65530, _ => 0), 0)]; Written(BodyBytes(ids, bs)) != Some((ids, bs))
  {
    var ids := [PskIdentity(seq(65530, _ => 0), 0)];
    assert ids[..0] == [];
    assert |Cat(IdentityBytes, ids)| == 0x1_0000;
    WriteReadsBack(ids, bs);
  }

  /** Any accepted input starts with the encoding of what Write keeps: reading it out again gives the
      same bytes. */
  lemma AcceptedIsEncoding(b: Bytes)
    requires Written(b).Some?
    ensures BodyBytes(Written(b).value.0, Written(b).value.1) <= b
  {
    hide Cat, ParseIdentities, ParseBinders, Uint, UintVal, Wrap16;
    Pow256Values();
    UintValBound(b[..2]);
    var (ids, r) := ParseIdentities(b[2..], UintVal(b[..2]));
    var rest := r.value;
    var (bs, after) := ParseBinders(rest[2..], UintVal(rest[..2]));
    IdentitiesSound(b[2..], UintVal(b[..2]));
    BindersSound(rest[2..], UintVal(rest[..2]));
    UintValBound(rest[..2]);
    WrapSmall(UintVal(rest[..2]));
    LengthField(b, |Cat(IdentityBytes, ids)|);
    LengthField(rest, |Cat(BinderBytes, bs)|);
    assert b == Uint(2, |Cat(IdentityBytes, ids)|) + (Cat(IdentityBytes, ids) + rest);
    assert rest == Uint(2, |Cat(BinderBytes, bs)|) + (Cat(BinderBytes, bs) + after.value);
    assert b == BodyBytes(ids, bs) + after.value;
  }

  lemma LengthField(s: Bytes, n: nat)
    requires |s| >= 2 && UintVal(s[..2]) == Wrap16(n)
    ensures s == Uint(2, n) + s[2..]
  {
    Pow256Values();
    UintOfVal(s[..2]);
    UintTruncates(2, n);
    UintOfVal(Uint(2, n));
  }
}
