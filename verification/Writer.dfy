/** writeRecordLocked: cutting data into records, and how large the records get. */
module Writer {
  import opened Wire
  import opened Record
  import opened RecordRun

  const TCP_MSS_ESTIMATE := 1208
  const RECORD_SIZE_BOOST_THRESHOLD := 128 * 1024

  /** Room for payload in the first record of TCP_MSS_ESTIMATE bytes. For the block sizes in use, powers
      of two, masking off the low bits is rounding down to a multiple. */
  function PayloadBytes(k: Keys, h: Half, vers: nat): (r: int)
    requires k.block > 0
  {
    var room := TCP_MSS_ESTIMATE - HEADER - NonceLen(k, h);
    var payload := match h.shape
      case Plain => room
      case Stream => room - k.macSize
      case Aead(_) => room - k.overhead
      case Cbc => room - room % k.block - 1 - k.macSize;
    if vers == TLS13 then payload - 1 else payload
  }

  predicate Dynamic(disabled: bool, typ: Byte, bytesSent: nat)
  {
    !disabled && typ == APPLICATION_DATA && bytesSent < RECORD_SIZE_BOOST_THRESHOLD
  }

  /** maxPayloadSizeForWrite; pkt is the number of dynamically sized records before this one. */
  function MaxPayload(k: Keys, h: Half, vers: nat, dynamic: bool, pkt: nat): (r: int)
    requires k.block > 0
  {
    if !dynamic || pkt > 1000 || PayloadBytes(k, h, vers) * (pkt + 1) > MAX_PLAINTEXT then MAX_PLAINTEXT
    else PayloadBytes(k, h, vers) * (pkt + 1)
  }

  lemma RoomForPayload(k: Keys, h: Half, vers: nat)
    requires k.Lawful()
    ensures PayloadBytes(k, h, vers) > 0
  {
    hide Keys.StreamLaws;
  }

  lemma MaxPayloadPositive(k: Keys, h: Half, vers: nat, dynamic: bool, pkt: nat)
    requires k.Lawful()
    ensures 1 <= MaxPayload(k, h, vers, dynamic, pkt) <= MAX_PLAINTEXT
  {
    hide Keys.StreamLaws, Keys.AeadLaws, PayloadBytes;
    RoomForPayload(k, h, vers);
    MulMono(1, pkt + 1, PayloadBytes(k, h, vers));
    assert PayloadBytes(k, h, vers) * (pkt + 1) == (pkt + 1) * PayloadBytes(k, h, vers);
  }

  // ---- Record sizes ----

  /** The bytes a record of a given payload size occupies. */
  function RecordSize(k: Keys, h: Half, m: nat): (r: nat)
    requires k.block > 0
  {
    HEADER + NonceLen(k, h) +
    match h.shape
    case Plain => m
    case Stream => m + k.macSize
    case Aead(_) => m + k.overhead + (if h.version == TLS13 then 1 else 0)
    case Cbc => m + k.macSize + PadTo(k.block, m + k.macSize)
  }

  lemma EncryptSize(k: Keys, h: Half, typ: Byte, vers: Bytes, payload: Bytes, rand: Bytes)
    requires k.Lawful() && Writable(k, h, typ, vers, payload, rand)
    ensures var record := Encrypt(k, h, typ, vers, payload, rand).1;
      |record| == RecordSize(k, h, |payload|) && record[3..5] == Uint(2, |record| - HEADER)
  {
    hide Uint, Encrypt, RecordSize, Keys.Lawful, Header;
    var t, body := EncryptedBody(k, h, typ, vers, payload, rand);
    LengthField(t, vers, body);
  }

  lemma LengthField(typ: Byte, vers: Bytes, body: Bytes)
    requires |vers| == 2
    ensures var record := Header(typ, vers, |body|) + body;
            |record| == HEADER + |body| && record[3..5] == Uint(2, |body|)
  {
    hide Uint;
  }

  /** Every record is a header for its body, and how long the body is. */
  lemma EncryptedBody(k: Keys, h: Half, typ: Byte, vers: Bytes, payload: Bytes, rand: Bytes)
    returns (t: Byte, body: Bytes)
    requires k.Lawful() && Writable(k, h, typ, vers, payload, rand)
    ensures Encrypt(k, h, typ, vers, payload, rand).1 == Header(t, vers, |body|) + body
    ensures HEADER + |body| == RecordSize(k, h, |payload|)
  {
    hide Uint, PadTo, Header, Keys.StreamLaws, Keys.AeadLaws, Keys.BlockLaws, CbcBody;
    BlockBounds(k);
    Sizes(k);
    t := typ;
    var header, seq8 := Header(typ, vers, |payload|), Uint(8, h.seqNo);
    match h.shape
    case Plain => body := payload;
    case Stream => body := k.xor(h.pos, payload) + k.xor(h.pos + |payload|, k.mac(h.seqNo, header, payload));
    case Aead(explicit) =>
      if h.version == TLS13 {
        t := APPLICATION_DATA;
        var outer := Header(APPLICATION_DATA, vers, |payload + [typ]| + k.overhead);
        body := k.seal(seq8, payload + [typ], outer);
        assert outer + [] + body == outer + body;
      } else {
        body := (if explicit then seq8 else []) + k.seal(seq8, payload, seq8 + header);
      }
    case Cbc =>
      var mac := k.mac(h.seqNo, header, payload);
      BodySize(k, payload, mac);
      var iv := if NonceLen(k, h) > 0 then rand else h.iv;
      EncSize(k, iv, CbcBody(k, payload, mac));
      body := (if NonceLen(k, h) > 0 then rand else []) + k.enc(iv, CbcBody(k, payload, mac));
  }

  lemma Sizes(k: Keys)
    requires k.Lawful()
    ensures forall p: nat, d: Bytes :: |k.xor(p, d)| == |d|
    ensures forall nonce: Bytes, d: Bytes, ad: Bytes :: |k.seal(nonce, d, ad)| == |d| + k.overhead
  {
  }

  lemma EncSize(k: Keys, iv: Bytes, d: Bytes)
    requires k.Lawful() && k.block > 0 && |d| % k.block == 0
    ensures |k.enc(iv, d)| == |d|
  {
  }

  lemma BodySize(k: Keys, payload: Bytes, mac: Bytes)
    requires 1 <= k.block <= 255
    ensures |CbcBody(k, payload, mac)| == |payload| + |mac| + PadTo(k.block, |payload| + |mac|)
    ensures |CbcBody(k, payload, mac)| % k.block == 0
  {
  }

  /** What readRecordOrCCS accepts: the length in the header for this version. */
  lemma PassesPeerCheck(k: Keys, h: Half, m: nat)
    requires k.Lawful() && m <= MAX_PLAINTEXT && (h.version == TLS13 ==> h.shape == Plain || h.shape == Aead(false))
    ensures RecordSize(k, h, m) - HEADER <= if h.version == TLS13 then MAX_CIPHERTEXT_TLS13 else MAX_CIPHERTEXT
  {
    hide Keys.StreamLaws, Keys.AeadLaws, Keys.BlockLaws;
    SizeBounds(k);
  }

  lemma SizeBounds(k: Keys)
    requires k.Lawful()
    ensures k.overhead <= 255 && 1 <= k.block <= 255
  {
  }

  /** The size of the record with index pkt, when sized dynamically, in every cipher shape. */
  lemma DynamicSize(k: Keys, h: Half, pkt: nat, m: nat)
    requires k.Lawful() && m <= MaxPayload(k, h, h.version, true, pkt)
    ensures RecordSize(k, h, m) <= (pkt + 1) * TCP_MSS_ESTIMATE
  {
    hide Keys.StreamLaws, Keys.AeadLaws, Keys.BlockLaws, PayloadBytes, RecordSize;
    SizeBounds(k);
    var b := PayloadBytes(k, h, h.version);
    if pkt > 1000 {
      Largest(k, h, m);
    } else {
      assert m <= b * (pkt + 1);
      SizeWithin(k, h, pkt, m);
    }
  }

  lemma Largest(k: Keys, h: Half, m: nat)
    requires m <= MAX_PLAINTEXT && k.overhead <= 255 && 1 <= k.block <= 255 && k.macSize <= 255
    ensures RecordSize(k, h, m) <= 1000 * TCP_MSS_ESTIMATE
  {
  }

  lemma SizeWithin(k: Keys, h: Half, pkt: nat, m: nat)
    requires k.overhead <= 255 && 1 <= k.block <= 255 && k.macSize <= 255
    requires m <= PayloadBytes(k, h, h.version) * (pkt + 1)
    ensures RecordSize(k, h, m) <= (pkt + 1) * TCP_MSS_ESTIMATE
  {
    hide PadTo;
    var room := TCP_MSS_ESTIMATE - HEADER - NonceLen(k, h);
    var b, p := PayloadBytes(k, h, h.version), pkt + 1;
    if h.shape != Cbc {
      var over := TCP_MSS_ESTIMATE - b;
      assert RecordSize(k, h, m) <= m + over;
      assert b * p + over <= p * TCP_MSS_ESTIMATE by {
        assert b * p == p * TCP_MSS_ESTIMATE - p * over;
        MulMono(1, p, over);
        assert p * over >= over;
      }
    } else {
      CbcWithin(k.block, k.macSize, room, NonceLen(k, h), b, p, m);
    }
  }

  /** m plus MAC leaves at least a byte of a whole number of blocks, which the padding then fills. */
  lemma CbcWithin(block: nat, macSize: nat, room: nat, nonceLen: nat, b: int, p: nat, m: nat)
    requires block > 0 && p > 0 && room == TCP_MSS_ESTIMATE - HEADER - nonceLen
    requires b == room - room % block - 1 - macSize || b == room - room % block - 2 - macSize
    requires m <= b * p
    ensures HEADER + nonceLen + m + macSize + PadTo(block, m + macSize) <= p * TCP_MSS_ESTIMATE
  {
    hide PadTo;
    var f := room - room % block;
    var q := room / block;
    assert f == q * block;
    ScaledBound(b, f - 1 - macSize, p, m);
    assert (f - 1 - macSize) * p == f * p - p - macSize * p;
    MulMono(1, p, macSize);
    assert macSize * p >= macSize;
    assert m + macSize < f * p;
    assert f * p == (q * p) * block;
    PadWithin(block, m + macSize, q * p);
    assert m + macSize + PadTo(block, m + macSize) <= f * p;
    ScaledRoom(f, room, p, nonceLen);
  }

  lemma ScaledBound(b: int, c: int, p: nat, m: nat)
    requires b <= c && m <= b * p
    ensures m <= c * p
  {
    assert (c - b) * p >= 0;
  }

  lemma ScaledRoom(f: nat, room: nat, p: nat, nonceLen: nat)
    requires f <= room && p > 0 && room == TCP_MSS_ESTIMATE - HEADER - nonceLen
    ensures HEADER + nonceLen + f * p <= p * TCP_MSS_ESTIMATE
  {
    assert f * p <= room * p;
    assert p * TCP_MSS_ESTIMATE == room * p + (HEADER + nonceLen) * p;
    assert (HEADER + nonceLen) * p >= HEADER + nonceLen by { MulMono(1, p, HEADER + nonceLen); }
  }

  /** Padding goes to the next multiple and no further. */
  lemma PadWithin(block: nat, n: nat, q: nat)
    requires block > 0 && n < q * block
    ensures n + PadTo(block, n) <= q * block
  {
    var r := n / block;
    assert n == r * block + n % block;
    if r >= q {
      MulMono(q, r, block);
      assert false;
    }
    MulMono(r + 1, q, block);
  }

  // ---- The writing loop ----

  function RecordVersion(vers: nat): (r: Bytes)
    ensures |r| == 2
  {
    Uint(2, if vers == 0 then TLS10 else if vers == TLS13 then TLS12 else vers)
  }

  function Concat(parts: seq<Bytes>): (r: Bytes)
  {
    if parts == [] then [] else Concat(parts[..|parts| - 1]) + parts[|parts| - 1]
  }

  /** What one direction of a Conn keeps for writing. wire holds the records handed to write. */
  class OutConn {
    var out: HalfConn
    var vers: nat
    var disabled: bool      // DynamicRecordSizingDisabled
    var bytesSent: nat
    var packetsSent: nat
    var buffering: bool
    var sendBuf: Bytes
    var wire: seq<Bytes>
    var randUsed: nat

    constructor (out: HalfConn, disabled: bool)
      requires out.k.Lawful()
      ensures Valid() && this.out == out && this.disabled == disabled && bytesSent == packetsSent == 0 && wire == []
    {
      this.out, this.vers, this.disabled := out, out.version, disabled;
      bytesSent, packetsSent, buffering, sendBuf, wire, randUsed := 0, 0, false, [], [], 0;
    }

    ghost predicate Valid()
      reads this, out
    {
      out.k.Lawful() && out.version == vers
    }

    ghost function Now(): (r: End)
      reads this, out
    {
      End(out.k, out.State())
    }

    /** write: buffered, or to the network, which is taken to accept it. */
    method Write(data: Bytes)
      modifies this
      ensures out == old(out) && vers == old(vers) && disabled == old(disabled) && packetsSent == old(packetsSent)
      ensures randUsed == old(randUsed) && buffering == old(buffering) && wire == old(wire) + [data]
      ensures if buffering then sendBuf == old(sendBuf) + data && bytesSent == old(bytesSent)
              else sendBuf == old(sendBuf) && bytesSent == old(bytesSent) + |data|
    {
      wire := wire + [data];
      if buffering { sendBuf := sendBuf + data; } else { bytesSent := bytesSent + |data|; }
    }

    /** maxPayloadSizeForWrite. */
    method MaxPayloadSizeForWrite(typ: Byte) returns (n: int)
      requires Valid()
      modifies this`packetsSent
      ensures n == MaxPayload(out.k, out.State(), vers, Dynamic(disabled, typ, bytesSent), old(packetsSent))
      ensures packetsSent == old(packetsSent) + (if Dynamic(disabled, typ, bytesSent) then 1 else 0)
    {
      hide Keys.StreamLaws, Keys.AeadLaws, PayloadBytes;
      if disabled || typ != APPLICATION_DATA { return MAX_PLAINTEXT; }
      if bytesSent >= RECORD_SIZE_BOOST_THRESHOLD { return MAX_PLAINTEXT; }
      var payloadBytes := PayloadBytes(out.k, out.State(), vers);
      var pkt := packetsSent;
      packetsSent := packetsSent + 1;
      if pkt > 1000 { return MAX_PLAINTEXT; }
      n := payloadBytes * (pkt + 1);
      if n > MAX_PLAINTEXT { n := MAX_PLAINTEXT; }
    }

    ghost predicate SameConfig(h: HalfConn, v: nat, d: bool)
      reads this
    {
      out == h && vers == v && disabled == d
    }

    /** One round of the loop of writeRecordLocked: m bytes of data become one record. */
    method WriteOne(typ: Byte, data: Bytes, rand: (nat, nat) -> Bytes) returns (m: nat, ghost ev: Event)
      requires Valid() && Sendable(out.State(), typ) && data != [] && forall i: nat, len: nat :: |rand(i, len)| == len
      modifies this, out
      ensures SameConfig(old(out), old(vers), old(disabled)) && Valid() && Sendable(out.State(), typ)
      ensures 1 <= m <= |data| && m <= MAX_PLAINTEXT
      ensures m == |data| ||
              m == old(MaxPayload(out.k, out.State(), vers, Dynamic(disabled, typ, bytesSent), packetsSent))
      ensures ev.Write? && ev == Event.Write(typ, RecordVersion(vers), data[..m], ev.rand)
      ensures old(Now()).k.Lawful() && Possible(old(Now()), ev) && Now() == Send(old(Now()), ev).0
      ensures |wire| == old(|wire|) + 1 && wire[..old(|wire|)] == old(wire)
      ensures Send(old(Now()), ev).1 == Rec(wire[old(|wire|)])
      ensures |wire[old(|wire|)]| - HEADER <= if vers == TLS13 then MAX_CIPHERTEXT_TLS13 else MAX_CIPHERTEXT
      ensures bytesSent >= old(bytesSent)
      ensures if old(Dynamic(disabled, typ, bytesSent))
              then packetsSent == old(packetsSent) + 1 &&
                |wire[old(|wire|)]| <= (old(packetsSent) + 1) * TCP_MSS_ESTIMATE
              else packetsSent == old(packetsSent)
    {
      hide Keys.StreamLaws, Keys.AeadLaws, Keys.BlockLaws, Encrypt, MaxPayload, RecordSize, RecordVersion;
      BlockBounds(out.k);
      m := |data|;
      ghost var h, pkt, dynamic := out.State(), packetsSent, Dynamic(disabled, typ, bytesSent);
      ghost var before := Now();
      var maxPayload := MaxPayloadSizeForWrite(typ);
      MaxPayloadPositive(out.k, h, vers, dynamic, pkt);
      if m > maxPayload { m := maxPayload; }
      var r := rand(randUsed, NonceLen(out.k, out.State()));
      randUsed := randUsed + 1;
      ev := Event.Write(typ, RecordVersion(vers), data[..m], r);
      var record := out.EncryptRecord(typ, RecordVersion(vers), data[..m], r);
      EncryptSize(before.k, h, typ, RecordVersion(vers), data[..m], r);
      PassesPeerCheck(before.k, h, m);
      if dynamic { DynamicSize(before.k, h, pkt, m); }
      KeepsShape(before.k, h, typ, RecordVersion(vers), data[..m], r);
      Write(record);
    }

    /** The loop of writeRecordLocked, for a Conn without QUIC. rand(i, n) is the i-th draw of n random
        bytes. parts, one per record, concatenate to the data; the records are those of a sender run
        over the parts; each passes the peer's size check; and the dynamically sized records, which come
        first, keep to their allowance, where a record's index is the counter before it. */
    method WriteRecords(typ: Byte, input: Bytes, rand: (nat, nat) -> Bytes)
      returns (n: nat, ghost parts: seq<Bytes>, ghost evs: seq<Event>)
      requires Valid() && Sendable(out.State(), typ) && forall i: nat, len: nat :: |rand(i, len)| == len
      modifies this, out
      ensures SameConfig(old(out), old(vers), old(disabled)) && Valid() && n == |input| && Concat(parts) == input
      ensures WrittenParts(typ, parts, evs) && Versioned(evs, vers)
      ensures |wire| == old(|wire|) + |parts| && wire[..old(|wire|)] == old(wire)
      ensures SendAll(old(Now()), evs) == Some((Now(), Records(wire[old(|wire|)..])))
      ensures SizesOk(wire[old(|wire|)..], if vers == TLS13 then MAX_CIPHERTEXT_TLS13 else MAX_CIPHERTEXT)
      ensures Allowance(wire[old(|wire|)..], old(packetsSent), packetsSent)
      ensures !disabled && typ == 23 && bytesSent < 131072 ==> packetsSent - old(packetsSent) == |parts|
      ensures disabled || typ != 23 || old(bytesSent) >= 131072 ==> Filled(parts, [])
    {
      hide Keys.StreamLaws, Keys.AeadLaws, Keys.BlockLaws, Keys.Lawful, Send, SendAll, Possible, Sendable,
        RecordVersion, Concat, WrittenParts, SizesOk, Allowance, Records, Filled, PayloadBytes;
      NothingYet(typ, if vers == TLS13 then MAX_CIPHERTEXT_TLS13 else MAX_CIPHERTEXT, packetsSent);
      var data := input;
      n := 0;
      parts, evs := [], [];
      ghost var start, wire0, limit := Now(), wire, if vers == TLS13 then MAX_CIPHERTEXT_TLS13 else MAX_CIPHERTEXT;
      ghost var sent: seq<Bytes> := [];
      SendNothing(start);
      while |data| > 0
        invariant SameConfig(old(out), old(vers), old(disabled)) && Valid() && Sendable(out.State(), typ)
        invariant n + |data| == |input| && Concat(parts) + data == input
        invariant WrittenParts(typ, parts, evs) && Versioned(evs, vers)
        invariant wire == wire0 + sent && |sent| == |parts|
        invariant SendAll(start, evs) == Some((Now(), Records(sent)))
        invariant SizesOk(sent, limit) && bytesSent >= old(bytesSent)
        invariant Allowance(sent, old(packetsSent), packetsSent)
        invariant Dynamic(disabled, typ, bytesSent) ==> packetsSent == old(packetsSent) + |parts|
        invariant !old(Dynamic(disabled, typ, bytesSent)) ==> Filled(parts, data)
      {
        ghost var wasWire, pkt := wire, packetsSent;
        ghost var ev;
        var m;
        m, ev := WriteOne(typ, data, rand);
        ghost var record := wire[|wasWire|];
        assert wire == wire[..|wasWire|] + [record];
        assert wire == wire0 + (sent + [record]);
        OneMore(typ, parts, evs, sent, limit, old(packetsSent), pkt, packetsSent, data[..m], ev, record);
        SendOneMore(start, evs, ev);
        RecordsOneMore(sent, record);
        ConcatOneMore(parts, data[..m]);
        if !old(Dynamic(disabled, typ, bytesSent)) { FilledOneMore(parts, data, m); }
        assert Concat(parts) + data == (Concat(parts) + data[..m]) + data[m..];
        n := n + m;
        parts, evs, sent := parts + [data[..m]], evs + [ev], sent + [record];
        data := data[m..];
      }
      assert Concat(parts) + [] == Concat(parts);
      assert wire[|wire0|..] == sent;
    }
  }

  /** Non-empty parts of at most the plaintext limit, written in order. */
  ghost predicate WrittenParts(typ: Byte, parts: seq<Bytes>, evs: seq<Event>)
  {
    && |evs| == |parts|
    && (forall i | 0 <= i < |parts| :: 1 <= |parts[i]| <= MAX_PLAINTEXT)
    && forall i | 0 <= i < |evs| :: evs[i].Write? && evs[i].payload == parts[i] && evs[i].typ == typ
  }

  /** All parts are of full size, except that the last one may be shorter when nothing is left. */
  ghost predicate Filled(parts: seq<Bytes>, left: Bytes)
  {
    forall i | 0 <= i < |parts| :: |parts[i]| == 16384 || (i == |parts| - 1 && left == [])
  }

  lemma FilledOneMore(parts: seq<Bytes>, data: Bytes, m: nat)
    requires Filled(parts, data) && data != [] && m <= |data| && (m == |data| || m == 16384)
    ensures Filled(parts + [data[..m]], data[m..])
  {
  }

  /** The first dynamically sized record is the largest that fits 1208 bytes. */
  lemma FirstRecordFilled(k: Keys, h: Half)
    requires k.Lawful() && (h.version == TLS13 ==> h.shape == Aead(false))
    ensures var b := MaxPayload(k, h, h.version, true, 0);
            b > 0 && RecordSize(k, h, b) <= 1208 < RecordSize(k, h, b + 1)
  {
    hide Keys.StreamLaws, Keys.AeadLaws, Keys.BlockLaws, PadTo, RecordSize, PayloadBytes;
    SizeBounds(k);
    RoomForPayload(k, h, h.version);
    SmallFirst(k, h);
    SizeWithin(k, h, 0, PayloadBytes(k, h, h.version));
    OneByteMore(k, h);
  }

  lemma OneByteMore(k: Keys, h: Half)
    requires k.block > 0 && (h.version == TLS13 ==> h.shape == Aead(false)) && PayloadBytes(k, h, h.version) >= 0
    ensures RecordSize(k, h, PayloadBytes(k, h, h.version) + 1) > 1208
  {
    hide PadTo;
    if h.shape == Cbc {
      WholeBlocks(k.block, TCP_MSS_ESTIMATE - HEADER - NonceLen(k, h));
    }
  }

  /** Whole blocks take a block of padding more. */
  lemma WholeBlocks(block: nat, room: int)
    requires block > 0
    ensures var n := room - room % block; n >= 0 ==> n + PadTo(block, n) > room
  {
    var n, q := room - room % block, room / block;
    assert n == q * block;
    if n >= 0 {
      if q < 0 { MultipleSize(q, block); }
      MulMod(q, block);
    }
  }

  /** The k-th grows to k + 1 times the first, up to the plaintext limit. */
  lemma DynamicGrowth(k: Keys, h: Half, pkt: nat)
    requires k.Lawful() && pkt <= 1000
    ensures var first, b := MaxPayload(k, h, h.version, true, 0), MaxPayload(k, h, h.version, true, pkt);
            b == if first * (pkt + 1) > 16384 then 16384 else first * (pkt + 1)
  {
    hide Keys.StreamLaws, Keys.AeadLaws, PayloadBytes;
    SizeBounds(k);
    SmallFirst(k, h);
  }

  lemma SmallFirst(k: Keys, h: Half)
    requires k.Lawful()
    ensures PayloadBytes(k, h, h.version) <= 1208
  {
    hide Keys.StreamLaws, Keys.AeadLaws;
  }

  /** Every record carries the version the connection writes. */
  ghost predicate Versioned(evs: seq<Event>, vers: nat)
  {
    forall i | 0 <= i < |evs| :: evs[i].Write? && evs[i].vers == RecordVersion(vers)
  }

  ghost predicate SizesOk(sent: seq<Bytes>, limit: nat)
  {
    forall i | 0 <= i < |sent| :: |sent[i]| - HEADER <= limit
  }

  /** The first to - from records, with these indices, take at most that many segments plus one. */
  ghost predicate Allowance(sent: seq<Bytes>, from: nat, to: nat)
  {
    0 <= to - from <= |sent| && forall i | 0 <= i < to - from :: |sent[i]| <= (from + i + 1) * TCP_MSS_ESTIMATE
  }

  lemma NothingYet(typ: Byte, limit: nat, pkt: nat)
    ensures forall data: Bytes :: Filled([], data)
    ensures WrittenParts(typ, [], []) && SizesOk([], limit) && Allowance([], pkt, pkt) && Concat([]) == []
    ensures Records([]) == []
  {
  }

  lemma OneMore(typ: Byte, parts: seq<Bytes>, evs: seq<Event>, sent: seq<Bytes>, limit: nat, from: nat, pkt: nat,
                to: nat, part: Bytes, ev: Event, record: Bytes)
    requires WrittenParts(typ, parts, evs) && SizesOk(sent, limit) && Allowance(sent, from, pkt)
    requires 1 <= |part| <= MAX_PLAINTEXT && ev.Write? && ev.payload == part && ev.typ == typ
    requires |record| - HEADER <= limit
    requires if to == pkt + 1 then pkt == from + |sent| && |record| <= (pkt + 1) * TCP_MSS_ESTIMATE else to == pkt
    ensures WrittenParts(typ, parts + [part], evs + [ev]) && SizesOk(sent + [record], limit)
    ensures Allowance(sent + [record], from, to)
  {
  }

  /** The record types and states a Conn writes in. */
  predicate Sendable(h: Half, typ: Byte)
  {
    typ != 0 && (h.version == TLS13 ==> h.shape == Plain || (h.shape == Aead(false) && typ != CHANGE_CIPHER_SPEC))
  }

  lemma KeepsShape(k: Keys, h: Half, typ: Byte, vers: Bytes, payload: Bytes, rand: Bytes)
    requires 1 <= k.block <= 255
    ensures var h' := Encrypt(k, h, typ, vers, payload, rand).0; h'.version == h.version && h'.shape == h.shape
  {
  }

  function Records(wire: seq<Bytes>): (r: seq<Item>)
    ensures |r| == |wire| && forall i | 0 <= i < |r| :: r[i] == Rec(wire[i])
  {
    seq(|wire|, i requires 0 <= i < |wire| => Rec(wire[i]))
  }

  lemma RecordsOneMore(wire: seq<Bytes>, record: Bytes)
    ensures Records(wire + [record]) == Records(wire) + [Rec(record)]
  {
  }

  lemma ConcatOneMore(parts: seq<Bytes>, part: Bytes)
    ensures Concat(parts + [part]) == Concat(parts) + part
  {
    assert (parts + [part])[..|parts|] == parts;
  }

  lemma SendNothing(e: End)
    ensures SendAll(e, []) == Some((e, []))
  {
  }

  lemma {:induction false} SendOneMore(e: End, evs: seq<Event>, ev: Event)
    requires SendAll(e, evs).Some? && SendAll(e, evs).value.0.k.Lawful() && Possible(SendAll(e, evs).value.0, ev)
    ensures var (e', items) := SendAll(e, evs).value;
      SendAll(e, evs + [ev]) == Some((Send(e', ev).0, items + [Send(e', ev).1]))
    decreases |evs|
  {
    hide Keys.StreamLaws, Keys.AeadLaws, Send, Possible;
    if evs == [] {
      assert [] + [ev] == [ev] && [ev][1..] == [];
      SendNothing(Send(e, ev).0);
      assert [Send(e, ev).1] + [] == [Send(e, ev).1] == [] + [Send(e, ev).1];
    } else {
      var (e1, item) := Send(e, evs[0]);
      assert (evs + [ev])[1..] == evs[1..] + [ev];
      SendOneMore(e1, evs[1..], ev);
      var (e', items) := SendAll(e1, evs[1..]).value;
      assert [item] + (items + [Send(e', ev).1]) == ([item] + items) + [Send(e', ev).1];
    }
  }

  // ---- Written and read ----

  function Outputs(typ: Byte, parts: seq<Bytes>): (r: seq<Opened>)
    ensures |r| == |parts| && forall i | 0 <= i < |r| :: r[i] == Ok(parts[i], typ)
  {
    seq(|parts|, i requires 0 <= i < |parts| => Ok(parts[i], typ))
  }

  lemma {:induction false} WrittenIsParts(typ: Byte, parts: seq<Bytes>, evs: seq<Event>)
    requires WrittenParts(typ, parts, evs)
    ensures Written(evs) == Outputs(typ, parts)
  {
    if evs != [] {
      WrittenIsParts(typ, parts[1..], evs[1..]);
      assert Outputs(typ, parts) == [Ok(parts[0], typ)] + Outputs(typ, parts[1..]);
    }
  }

  /** What WriteRecords puts on the wire, a receiver in step opens to the same parts in the same order, whose
      concatenation is the data written. */
  lemma DataArrives(s: End, r: End, typ: Byte, parts: seq<Bytes>, evs: seq<Event>)
    requires s.k.Lawful() && InStep(s, r) && WrittenParts(typ, parts, evs) && SendAll(s, evs).Some?
    ensures ReceiveAll(r, SendAll(s, evs).value.1).1 == Outputs(typ, parts)
    ensures InStep(SendAll(s, evs).value.0, ReceiveAll(r, SendAll(s, evs).value.1).0)
  {
    hide SendAll, ReceiveAll, InStep, Keys.Lawful, WrittenParts, Outputs;
    RunDelivers(s, r, evs);
    WrittenIsParts(typ, parts, evs);
  }
}
