/** Whole runs of the record layer across key changes, and the halfConn object itself. */
module RecordRun {
  import opened Wire
  import opened Record
  import Nonce
  import Padding

  // ---- Runs ----

  /** One direction of a connection: the keys in force and the half connection's state. */
  datatype End = End(k: Keys, h: Half)

  /** What the sender does: write a record, or go over to a new cipher. */
  datatype Event =
    | Write(typ: Byte, vers: Bytes, payload: Bytes, rand: Bytes)
    | Switch(k: Keys, version: nat, shape: Shape, iv: Bytes)

  /** What the receiver meets, in order. In TLS 1.2 the change is announced by the record before it, in
      TLS 1.3 it is a point in the handshake. */
  datatype Item = Rec(bytes: Bytes) | Changed(k: Keys, version: nat, shape: Shape, iv: Bytes)

  /** changeCipherSpec and setTrafficSecret: a new cipher, sequence number zero. */
  function Fresh(k: Keys, version: nat, shape: Shape, iv: Bytes): (r: End) { End(k, Half(version, shape, 0, 0, iv)) }

  ghost predicate Possible(e: End, ev: Event)
  {
    match ev
    case Write(typ, vers, payload, rand) => Writable(e.k, e.h, typ, vers, payload, rand)
    case Switch(k, _, _, _) => k.Lawful()
  }

  function Send(e: End, ev: Event): (r: (End, Item))
    requires 1 <= e.k.block <= 255
  {
    match ev
    case Write(typ, vers, payload, rand) =>
      var (h, record) := Encrypt(e.k, e.h, typ, vers, payload, rand);
      (e.(h := h), Rec(record))
    case Switch(k, version, shape, iv) => (Fresh(k, version, shape, iv), Changed(k, version, shape, iv))
  }

  /** The records, and the sender's state, after a run; None when an event is not possible. */
  ghost function SendAll(e: End, evs: seq<Event>): (r: Option<(End, seq<Item>)>)
    decreases |evs|
  {
    if evs == [] then Some((e, [])) else
    if !e.k.Lawful() || !Possible(e, evs[0]) then None else
    var (e1, item) := Send(e, evs[0]);
    var (e2, items) :- SendAll(e1, evs[1..]);
    Some((e2, [item] + items))
  }

  function Receive(e: End, item: Item): (r: (End, seq<Opened>))
    requires 1 <= e.k.block <= 255
  {
    match item
    case Rec(bytes) =>
      if |bytes| < HEADER then (e, [Err(UnexpectedMessage)]) else
      var (h, o) := Decrypt(e.k, e.h, bytes);
      (e.(h := h), [o])
    case Changed(k, version, shape, iv) => (Fresh(k, version, shape, iv), [])
  }

  ghost function ReceiveAll(e: End, items: seq<Item>): (r: (End, seq<Opened>))
    decreases |items|
  {
    if items == [] || !e.k.Lawful() then (e, []) else
    var (e1, o) := Receive(e, items[0]);
    var (e2, os) := ReceiveAll(e1, items[1..]);
    (e2, o + os)
  }

  function WrittenBy(ev: Event): (r: seq<Opened>)
  {
    match ev
    case Write(typ, _, payload, _) => [Ok(payload, typ)]
    case Switch(_, _, _, _) => []
  }

  /** What was written, as the receiver should see it. */
  function Written(evs: seq<Event>): (r: seq<Opened>)
  {
    if evs == [] then [] else WrittenBy(evs[0]) + Written(evs[1..])
  }

  ghost predicate InStep(s: End, r: End) { s.k == r.k && Synced(s.h, r.h) }

  lemma OneEvent(s: End, r: End, ev: Event)
    requires s.k.Lawful() && InStep(s, r) && Possible(s, ev)
    ensures InStep(Send(s, ev).0, Receive(r, Send(s, ev).1).0)
    ensures Receive(r, Send(s, ev).1).1 == WrittenBy(ev)
  {
    hide Keys.StreamLaws, Keys.AeadLaws, Encrypt, Decrypt;
    match ev
    case Write(typ, vers, payload, rand) => OneRecord(s.k, s.h, r.h, typ, vers, payload, rand);
    case Switch(_, _, _, _) =>
  }

  /** Over any run, with any ciphers in any order, the receiver puts out exactly what was written and
      ends in step with the sender: a plaintext phase, in which only reads are counted, is forgotten at
      the next change of cipher. */
  lemma {:induction false} RunDelivers(s: End, r: End, evs: seq<Event>)
    requires s.k.Lawful() && InStep(s, r) && SendAll(s, evs).Some?
    ensures var (s', items) := SendAll(s, evs).value;
      InStep(s', ReceiveAll(r, items).0) && ReceiveAll(r, items).1 == Written(evs)
    decreases |evs|
  {
    hide Keys.StreamLaws, Keys.AeadLaws, Send, Receive, Synced, Possible;
    if evs != [] {
      var (s1, item) := Send(s, evs[0]);
      var (r1, o) := Receive(r, item);
      OneEvent(s, r, evs[0]);
      SendLawful(s, evs[0]);
      RunDelivers(s1, r1, evs[1..]);
      var items := SendAll(s1, evs[1..]).value.1;
      assert ([item] + items)[1..] == items;
    }
  }

  lemma SendLawful(e: End, ev: Event)
    requires e.k.Lawful() && Possible(e, ev)
    ensures Send(e, ev).0.k.Lawful()
  {
    hide Keys.StreamLaws, Keys.AeadLaws;
  }

  /** In a protected epoch both sequence numbers are equal and count the records. */
  lemma {:induction false} SequenceNumbersEqual(s: End, r: End, evs: seq<Event>)
    requires s.k.Lawful() && InStep(s, r) && SendAll(s, evs).Some? && s.h.shape != Plain
    requires forall ev | ev in evs :: ev.Write?
    ensures var (s', items) := SendAll(s, evs).value;
      s'.h.seqNo == ReceiveAll(r, items).0.h.seqNo == s.h.seqNo + |evs| && s'.h.shape == s.h.shape
    decreases |evs|
  {
    hide Keys.StreamLaws, Keys.AeadLaws, Receive, Possible, ReceiveAll, Keys.BlockLaws;
    BlockBounds(s.k);
    RunDelivers(s, r, evs);
    if evs != [] {
      var s1, item := Send(s, evs[0]).0, Send(s, evs[0]).1;
      SendLawful(s, evs[0]);
      assert evs[0] in evs;
      OneEvent(s, r, evs[0]);
      SequenceNumbersEqual(s1, Receive(r, item).0, evs[1..]);
    }
  }

  /** One plaintext record is enough to put the counters apart: the writer's stays, the reader's moves. */
  lemma PlaintextCountersDiffer(k: Keys, h: Half, typ: Byte, vers: Bytes, payload: Bytes, rand: Bytes)
    requires k.Lawful() && h.shape == Plain && h.version != TLS13 && Writable(k, h, typ, vers, payload, rand)
    ensures var (h', record) := Encrypt(k, h, typ, vers, payload, rand);
      |record| >= HEADER && h'.seqNo == h.seqNo && Decrypt(k, h, record).0.seqNo == h.seqNo + 1
  {
    hide Header, Keys.StreamLaws, Keys.AeadLaws;
    HeaderShape(typ, vers, |payload|, payload);
  }

  // ---- change_cipher_spec in TLS 1.3 ----

  lemma {:induction false} ReceiveAppend(e: End, xs: seq<Item>, ys: seq<Item>)
    ensures ReceiveAll(e, xs + ys) ==
            var (e1, os) := ReceiveAll(e, xs); var (e2, more) := ReceiveAll(e1, ys); (e2, os + more)
    decreases |xs|
  {
    hide Receive, Keys.StreamLaws, Keys.AeadLaws;
    if xs == [] {
      assert xs + ys == ys;
      assert forall os: seq<Opened> :: [] + os == os;
    } else {
      assert (xs + ys)[1..] == xs[1..] + ys;
      if e.k.Lawful() {
        BlockBounds(e.k);
        var (e1, o) := Receive(e, xs[0]);
        ReceiveAppend(e1, xs[1..], ys);
        var (e2, os) := ReceiveAll(e1, xs[1..]);
        var more := ReceiveAll(e2, ys).1;
        assert (xs + ys)[0] == xs[0];
        assert o + (os + more) == (o + os) + more;
      } else {
        var none: seq<Opened> := [];
        assert none + none == none;
        assert ReceiveAll(e, xs) == ReceiveAll(e, ys) == ReceiveAll(e, xs + ys) == (e, none);
      }
    }
  }

  /** The compatibility record of a TLS 1.3 peer. */
  function CompatibilityRecord(vers: Bytes): (r: Bytes) { [20] + vers + Uint(2, 1) + [1] }

  /** Such a record may stand anywhere in a TLS 1.3 run, protected or not: it is taken as it is, and the
      receiver's state and everything else it puts out are as without it. */
  lemma ChangeIsTransparent(e: End, xs: seq<Item>, ys: seq<Item>, vers: Bytes)
    requires |vers| == 2 && e.k.Lawful()
    requires var e1 := ReceiveAll(e, xs).0; e1.h.version == TLS13 && e1.k.Lawful()
    ensures var (e2, os) := ReceiveAll(e, xs + [Rec(CompatibilityRecord(vers))] + ys);
            && e2 == ReceiveAll(e, xs + ys).0
            && os == ReceiveAll(e, xs).1 + [Ok([1], 20)] + ReceiveAll(ReceiveAll(e, xs).0, ys).1
  {
    hide Uint, Keys.StreamLaws, Keys.AeadLaws, Keys.BlockLaws, ReceiveAll, Receive;
    var item := Rec(CompatibilityRecord(vers));
    var e1 := ReceiveAll(e, xs).0;
    ReceiveAppend(e, xs + [item], ys);
    ReceiveAppend(e, xs, [item]);
    ReceiveAppend(e, xs, ys);
    OneCompatibility(e1, vers);
  }

  lemma OneCompatibility(e: End, vers: Bytes)
    requires |vers| == 2 && e.k.Lawful() && e.h.version == TLS13
    ensures ReceiveAll(e, [Rec(CompatibilityRecord(vers))]) == (e, [Ok([1], 20)])
  {
    hide Uint, Keys.StreamLaws, Keys.AeadLaws, DecryptAead, DecryptCbc, CheckMac;
    var item := Rec(CompatibilityRecord(vers));
    assert item.bytes[HEADER..] == [1];
    assert [item][1..] == [];
    assert [Ok([1], 20)] + [] == [Opened.Ok([1], 20)];
  }

  // ---- Nonces ----

  /** Every call of an AEAD in a run: which cipher since the start, and the nonce it is called with. */
  ghost function Sealings(e: End, evs: seq<Event>, epoch: nat): (r: seq<(nat, Bytes)>)
    requires SendAll(e, evs).Some?
    decreases |evs|
  {
    if evs == [] then [] else
    match evs[0]
    case Write(_, _, _, _) =>
      (if e.h.shape.Aead? then [(epoch, SealNonce(e.h))] else []) + Sealings(Send(e, evs[0]).0, evs[1..], epoch)
    case Switch(_, _, _, _) => Sealings(Send(e, evs[0]).0, evs[1..], epoch + 1)
  }

  /** Where a sealing of a run can stand: in a later epoch, or in this one with a number not used yet. */
  ghost predicate Ahead(x: (nat, Bytes), epoch: nat, from: nat, bound: nat)
  {
    epoch < x.0 || (epoch == x.0 && exists n: nat | from <= n < bound :: x.1 == Uint(8, n))
  }

  lemma {:induction false} SealingsAhead(e: End, evs: seq<Event>, epoch: nat)
    requires SendAll(e, evs).Some?
    ensures forall x | x in Sealings(e, evs, epoch) :: Ahead(x, epoch, e.h.seqNo, e.h.seqNo + |evs|)
    decreases |evs|
  {
    hide Uint, Possible;
    if evs != [] {
      var e1, seqNo, n := Send(e, evs[0]).0, e.h.seqNo, |evs|;
      if evs[0].Write? {
        SealingsAhead(e1, evs[1..], epoch);
        Counts(e, evs[0]);
        assert e.h.shape.Aead? ==> Ahead((epoch, SealNonce(e.h)), epoch, seqNo, seqNo + n);
        forall x | x in Sealings(e1, evs[1..], epoch) ensures Ahead(x, epoch, seqNo, seqNo + n) {
          assert Ahead(x, epoch, e1.h.seqNo, e1.h.seqNo + (n - 1));
        }
      } else {
        SealingsAhead(e1, evs[1..], epoch + 1);
      }
    }
  }

  lemma Counts(e: End, ev: Event)
    requires e.k.Lawful() && ev.Write?
    ensures e.h.seqNo <= Send(e, ev).0.h.seqNo <= e.h.seqNo + 1
    ensures e.h.shape.Aead? ==> Send(e, ev).0.h.seqNo == e.h.seqNo + 1
  {
    hide Keys.StreamLaws, Keys.AeadLaws, Header, Uint, CbcBody, LastBlock;
  }

  lemma SealNonceNotAhead(seqNo: nat, x: (nat, Bytes), epoch: nat, bound: nat)
    requires Ahead(x, epoch, seqNo + 1, bound) && seqNo < bound <= 0x1_0000_0000_0000_0000
    ensures x != (epoch, Uint(8, seqNo))
  {
    hide Uint;
    Pow256Values();
    if x.0 == epoch {
      var n: nat :| seqNo + 1 <= n < bound && x.1 == Uint(8, n);
      UintValFits(8, n);
      UintValFits(8, seqNo);
    }
  }

  predicate NoneTwice(calls: seq<(nat, Bytes)>) { forall i, j | 0 <= i < j < |calls| :: calls[i] != calls[j] }

  /** Over any run of fewer than 2^64 records, with any changes of cipher, no AEAD is called twice with the
      same nonce. */
  lemma {:induction false} NoncesDistinct(e: End, evs: seq<Event>, epoch: nat)
    requires SendAll(e, evs).Some? && e.h.seqNo + |evs| <= 0x1_0000_0000_0000_0000
    ensures NoneTwice(Sealings(e, evs, epoch))
    decreases |evs|
  {
    hide Uint, Possible, Ahead;
    if evs != [] {
      var e1 := Send(e, evs[0]).0;
      if evs[0].Write? {
        Counts(e, evs[0]);
        NoncesDistinct(e1, evs[1..], epoch);
        var rest := Sealings(e1, evs[1..], epoch);
        SealingsAhead(e1, evs[1..], epoch);
        if e.h.shape.Aead? {
          assert e1.h.seqNo + |evs[1..]| == e.h.seqNo + |evs|;
          forall j | 0 <= j < |rest| ensures rest[j] != (epoch, SealNonce(e.h)) {
            assert rest[j] in rest;
            SealNonceNotAhead(e.h.seqNo, rest[j], epoch, e.h.seqNo + |evs|);
          }
        }
      } else {
        NoncesDistinct(e1, evs[1..], epoch + 1);
        assert Sealings(e, evs, epoch) == Sealings(e1, evs[1..], epoch + 1);
      }
    }
  }

  /** And so no two calls under one key reach the underlying cipher with the same nonce, whether the number
      is mixed into the fixed part or follows it. */
  lemma UnderlyingDistinct(kind: Nonce.Kind, base: seq<bv8>, n1: Bytes, n2: Bytes)
    requires |base| == 12 && |n1| == |n2| == 8 && n1 != n2
    ensures Nonce.Combined(kind, base, ToBits(n1)) != Nonce.Combined(kind, base, ToBits(n2))
  {
    hide ToBit, Nonce.Combined;
    if Nonce.Combined(kind, base, ToBits(n1)) == Nonce.Combined(kind, base, ToBits(n2)) {
      Nonce.CombinedInjective(kind, base, ToBits(n1), ToBits(n2));
      forall i | 0 <= i < 8 ensures n1[i] == n2[i] {
        assert ToBits(n1)[i] == ToBits(n2)[i];
        BitIsByte(n1[i]);
        BitIsByte(n2[i]);
      }
    }
  }

  // ---- The object ----

  class HalfConn {
    var k: Keys
    var version: nat
    var shape: Shape
    var seqNo: nat
    var pos: nat
    var iv: Bytes

    function State(): (r: Half)
      reads this
    {
      Half(version, shape, seqNo, pos, iv)
    }

    /** changeCipherSpec after prepareCipherSpec, or setTrafficSecret. */
    method ChangeCipher(k: Keys, version: nat, shape: Shape, iv: Bytes)
      modifies this
      ensures End(this.k, State()) == Fresh(k, version, shape, iv)
    {
      this.k, this.version, this.shape, this.iv := k, version, shape, iv;
      seqNo, pos := 0, 0;
    }

    /** The CBC branch's buffer: payload, MAC, then the padding bytes one by one. */
    method FillBlocks(payload: Bytes, mac: Bytes) returns (dst: array<Byte>)
      requires 1 <= k.block <= 255
      ensures fresh(dst) && dst[..] == CbcBody(k, payload, mac)
    {
      hide PadTo;
      var plaintextLen := |payload| + |mac|;
      var paddingLen := PadTo(k.block, plaintextLen);
      var data := payload + mac;
      dst := new Byte[plaintextLen + paddingLen](i => if 0 <= i < |data| then data[i] else 0);
      for i := plaintextLen to dst.Length
        invariant dst[..plaintextLen] == data
        invariant forall j | plaintextLen <= j < i :: dst[j] == paddingLen - 1
      {
        dst[i] := paddingLen - 1;
      }
      assert dst[..] == data + Repeat(paddingLen - 1, paddingLen);
    }

    /** encrypt. */
    method EncryptRecord(typ: Byte, vers: Bytes, payload: Bytes, rand: Bytes) returns (record: Bytes)
      requires 1 <= k.block <= 255 && |vers| == 2
      modifies this
      ensures k == old(k) && (State(), record) == Encrypt(k, old(State()), typ, vers, payload, rand)
    {
      hide Uint, CbcBody, Header;
      var header := Header(typ, vers, |payload|);
      if shape == Plain { return header + payload; }
      var nonceLen := NonceLen(k, State());
      var body;
      match shape {
        case Stream =>
          var mac := k.mac(seqNo, header, payload);
          body := k.xor(pos, payload) + k.xor(pos + |payload|, mac);
          pos := pos + |payload| + |mac|;
        case Aead(explicit) =>
          var nonce := Uint(8, seqNo);
          var explicitNonce := if explicit then nonce else [];
          if version == TLS13 {
            var outer := Header(APPLICATION_DATA, vers, |payload| + 1 + k.overhead);
            record := outer + explicitNonce + k.seal(nonce, payload + [typ], outer);
            seqNo := seqNo + 1;
            return;
          }
          body := explicitNonce + k.seal(nonce, payload, nonce + header);
        case Cbc =>
          var mac := k.mac(seqNo, header, payload);
          var dst := FillBlocks(payload, mac);
          var start := if nonceLen > 0 then rand else iv;
          var ct := k.enc(start, dst[..]);
          iv := LastBlock(k, start, ct);
          body := (if nonceLen > 0 then rand else []) + ct;
      }
      record := Header(typ, vers, |body|) + body;
      seqNo := seqNo + 1;
    }

    /** The scan for the content type from the end of a TLS 1.3 plaintext. */
    method StripPadding(typ: Byte, plaintext: Bytes) returns (o: Opened)
      ensures o == Unwrap13(typ, plaintext)
    {
      if typ != APPLICATION_DATA { return Err(UnexpectedMessage); }
      if |plaintext| > MAX_PLAINTEXT + 1 { return Err(RecordOverflow); }
      var i := |plaintext| - 1;
      while i >= 0
        invariant -1 <= i < |plaintext| && (plaintext != [] ==> i >= 0)
        invariant forall j | i < j < |plaintext| :: plaintext[j] == 0
      {
        if plaintext[i] != 0 { return Ok(plaintext[..i], plaintext[i]); }
        if i == 0 { return Err(UnexpectedMessage); }
        i := i - 1;
      }
      return Ok(plaintext, typ);
    }

    /** The AEAD branch of decrypt. */
    method OpenAead(explicit: bool, record: Bytes) returns (o: Opened)
      requires |record| >= HEADER
      ensures o == DecryptAead(k, State(), explicit, record)
    {
      hide Uint, Unwrap13;
      var payload := record[HEADER..];
      var nonceLen := if explicit then 8 else 0;
      if |payload| < nonceLen { return Err(BadRecordMac); }
      var nonce := if explicit then payload[..nonceLen] else Uint(8, seqNo);
      payload := payload[nonceLen..];
      var ad := record[..HEADER];
      if version != TLS13 { ad := Uint(8, seqNo) + record[..3] + Uint(2, (|payload| - k.overhead) % 0x1_0000); }
      var plaintext := k.open(nonce, payload, ad);
      if plaintext.None? { return Err(BadRecordMac); }
      if version == TLS13 {
        o := StripPadding(record[0], plaintext.value);
      } else {
        o := Ok(plaintext.value, record[0]);
      }
    }

    /** The CBC branch of decrypt with the MAC check. */
    method OpenCbc(record: Bytes) returns (o: Opened)
      requires |record| >= HEADER && k.block > 0
      modifies this`iv
      ensures (State(), o) == DecryptCbc(k, old(State()), record)
    {
      hide Uint, CheckMac, Padding.Tested, RoundUp, LastBlock;
      var payload, nonceLen := record[HEADER..], NonceLen(k, State());
      if |payload| % k.block != 0 || |payload| < nonceLen + RoundUp(k.macSize + 1, k.block) || |payload| < nonceLen {
        return Err(BadRecordMac);
      }
      var start := if nonceLen > 0 then payload[..nonceLen] else iv;
      payload := payload[nonceLen..];
      iv := LastBlock(k, start, payload);
      var plain := k.dec(start, payload);
      var paddingLen, paddingGood := Padding.ExtractPadding(ToBits(plain));
      o := CheckMac(k, seqNo, record, plain, paddingLen, paddingGood);
    }

    /** decrypt. */
    method DecryptRecord(record: Bytes) returns (o: Opened)
      requires |record| >= HEADER && k.block > 0
      modifies this
      ensures k == old(k) && (State(), o) == Decrypt(k, old(State()), record)
    {
      hide CheckMac, DecryptAead, DecryptCbc;
      var typ, payload := record[0], record[HEADER..];
      if version == TLS13 && typ == CHANGE_CIPHER_SPEC { return Ok(payload, typ); }
      match shape {
        case Plain => o := Ok(payload, typ);
        case Stream =>
          o := CheckMac(k, seqNo, record, k.xor(pos, payload), 0, 255);
          pos := pos + |payload|;
        case Aead(explicit) => o := OpenAead(explicit, record);
        case Cbc => o := OpenCbc(record);
      }
      if o.Ok? { seqNo := seqNo + 1; }
    }
  }
}
