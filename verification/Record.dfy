/** halfConn: protecting records in its three cipher shapes, and what the receiver makes of them. */
module Record {
  import opened Wire
  import Bits
  import Padding

  const CHANGE_CIPHER_SPEC: Byte := 20
  const APPLICATION_DATA: Byte := 23
  const HEADER := 5
  const MAX_PLAINTEXT := 16384
  const MAX_CIPHERTEXT := 16384 + 2048
  const MAX_CIPHERTEXT_TLS13 := 16384 + 256

  /** The primitives of one direction under one key. A key stream is addressed by position; a block
      mode takes the IV it starts from; mac covers sequence number, header and payload. */
  datatype Keys = Keys(
    xor: (nat, Bytes) -> Bytes,
    seal: (Bytes, Bytes, Bytes) -> Bytes, open: (Bytes, Bytes, Bytes) -> Option<Bytes>, overhead: nat,
    enc: (Bytes, Bytes) -> Bytes, dec: (Bytes, Bytes) -> Bytes, block: nat,
    mac: (nat, Bytes, Bytes) -> Bytes, macSize: nat)
  {
    ghost predicate Lawful()
    {
      && StreamLaws() && AeadLaws() && BlockLaws()
      && macSize <= 255 && forall n: nat, h: Bytes, d: Bytes :: |mac(n, h, d)| == macSize
    }

    ghost predicate StreamLaws()
    {
      && (forall p: nat, d: Bytes :: |xor(p, d)| == |d| && xor(p, xor(p, d)) == d)
      && (forall p: nat, a: Bytes, b: Bytes :: xor(p, a) + xor(p + |a|, b) == xor(p, a + b))
    }

    ghost predicate AeadLaws()
    {
      && overhead <= 255
      && forall nonce: Bytes, d: Bytes, ad: Bytes ::
           |seal(nonce, d, ad)| == |d| + overhead && open(nonce, seal(nonce, d, ad), ad) == Some(d)
    }

    ghost predicate BlockLaws()
    {
      && 1 <= block <= 255
      && forall iv: Bytes, d: Bytes | |d| % block == 0 :: |enc(iv, d)| == |d| && dec(iv, enc(iv, d)) == d
    }
  }

  datatype Shape = Plain | Stream | Aead(explicit: bool) | Cbc

  datatype Half = Half(version: nat, shape: Shape, seqNo: nat, pos: nat, iv: Bytes)

  function NonceLen(k: Keys, h: Half): (r: nat)
  {
    match h.shape
    case Plain => 0
    case Stream => 0
    case Aead(explicit) => if explicit then 8 else 0
    case Cbc => if h.version >= TLS11 then k.block else 0
  }

  function Header(typ: Byte, vers: Bytes, n: nat): (r: Bytes) { [typ] + vers + Uint(2, n) }

  function LastBlock(k: Keys, iv: Bytes, ct: Bytes): (r: Bytes)
  {
    if |ct| < k.block then iv else ct[|ct| - k.block..]
  }

  // ---- encrypt ----

  function PadTo(block: nat, n: nat): (r: nat)
    requires block > 0
    ensures 1 <= r <= block && (n + r) % block == 0
  {
    ModSum(n, block);
    block - n % block
  }

  lemma ModSum(n: nat, b: nat)
    requires b > 0
    ensures (n + (b - n % b)) % b == 0
  {
    var q := n / b;
    assert n + (b - n % b) == (q + 1) * b;
    MulMod(q + 1, b);
  }

  lemma {:induction false} MulMod(q: nat, b: nat)
    requires b > 0
    ensures (q * b) % b == 0
  {
    ModUnique(q * b, b, q, 0);
  }

  function Repeat(b: Byte, n: nat): (r: Bytes)
    ensures |r| == n && forall i | 0 <= i < n :: r[i] == b
  {
    seq(n, _ => b)
  }

  function CbcBody(k: Keys, payload: Bytes, mac: Bytes): (r: Bytes)
    requires k.block > 0 && k.block <= 255
  {
    var n := PadTo(k.block, |payload| + |mac|);
    payload + mac + Repeat(n - 1, n)
  }

  /** The nonce an AEAD is called with: the sequence number. */
  function SealNonce(h: Half): (r: Bytes) { Uint(8, h.seqNo) }

  /** A protected record and the state after it. */
  function Encrypt(k: Keys, h: Half, typ: Byte, vers: Bytes, payload: Bytes, rand: Bytes): (r: (Half, Bytes))
    requires 1 <= k.block <= 255
  {
    var header, seq8 := Header(typ, vers, |payload|), SealNonce(h);
    match h.shape
    case Plain => (h, header + payload)
    case Stream =>
      var mac := k.mac(h.seqNo, header, payload);
      var body := k.xor(h.pos, payload) + k.xor(h.pos + |payload|, mac);
      (h.(seqNo := h.seqNo + 1, pos := h.pos + |payload| + |mac|), Header(typ, vers, |body|) + body)
    case Aead(explicit) =>
      var h' := h.(seqNo := h.seqNo + 1);
      if h.version == TLS13 then
        var inner := payload + [typ];
        var outer := Header(APPLICATION_DATA, vers, |inner| + k.overhead);
        (h', outer + (if explicit then seq8 else []) + k.seal(seq8, inner, outer))
      else
        var body := (if explicit then seq8 else []) + k.seal(seq8, payload, seq8 + header);
        (h', Header(typ, vers, |body|) + body)
    case Cbc =>
      var dst := CbcBody(k, payload, k.mac(h.seqNo, header, payload));
      var iv := if NonceLen(k, h) > 0 then rand else h.iv;
      var ct := k.enc(iv, dst);
      var body := (if NonceLen(k, h) > 0 then rand else []) + ct;
      (h.(seqNo := h.seqNo + 1, iv := LastBlock(k, iv, ct)), Header(typ, vers, |body|) + body)
  }

  // ---- decrypt ----

  datatype Alert = BadRecordMac | UnexpectedMessage | RecordOverflow

  datatype Opened = Ok(plaintext: Bytes, typ: Byte) | Err(alert: Alert)

  /** The position of the last non-zero byte, -1 when there is none. */
  function LastNonZero(s: Bytes): (r: int)
    ensures -1 <= r < |s| && (r >= 0 ==> s[r] != 0) && forall i | r < i < |s| :: s[i] == 0
  {
    if s == [] then -1 else if s[|s| - 1] != 0 then |s| - 1 else LastNonZero(s[..|s| - 1])
  }

  /** Removing TLS 1.3 padding. An empty inner plaintext passes as empty application data. */
  function Unwrap13(typ: Byte, plaintext: Bytes): (r: Opened)
  {
    if typ != APPLICATION_DATA then Err(UnexpectedMessage)
    else if |plaintext| > MAX_PLAINTEXT + 1 then Err(RecordOverflow)
    else if plaintext == [] then Ok([], typ)
    else if LastNonZero(plaintext) < 0 then Err(UnexpectedMessage)
    else Ok(plaintext[..LastNonZero(plaintext)], plaintext[LastNonZero(plaintext)])
  }

  function ToBit(b: Byte): (r: bv8) { Bits.FromInt(b) }

  function ToBits(d: Bytes): (r: seq<bv8>)
    ensures |r| == |d| && forall i | 0 <= i < |r| :: r[i] == ToBit(d[i])
  {
    seq(|d|, i requires 0 <= i < |d| => ToBit(d[i]))
  }

  /** The MAC at the end of payload, before toRemove bytes of padding. */
  function CheckMac(k: Keys, seqNo: nat, record: Bytes, payload: Bytes, toRemove: nat, good: bv8): (r: Opened)
    requires |record| >= HEADER
  {
    if |payload| < k.macSize then Err(BadRecordMac) else
    var n := if |payload| - k.macSize - toRemove < 0 then 0 else |payload| - k.macSize - toRemove;
    var header := record[..3] + Uint(2, n);
    if k.mac(seqNo, header, payload[..n]) == payload[n..n + k.macSize] && good == 255
    then Ok(payload[..n], record[0]) else Err(BadRecordMac)
  }

  function Counted(h: Half, o: Opened): (r: Half) { if o.Ok? then h.(seqNo := h.seqNo + 1) else h }

  function RoundUp(a: nat, b: nat): (r: nat)
    requires b > 0
  {
    a + (b - a % b) % b
  }

  function DecryptAead(k: Keys, h: Half, explicit: bool, record: Bytes): (r: Opened)
    requires |record| >= HEADER
  {
    var n0 := if explicit then 8 else 0;
    var payload := record[HEADER..];
    if |payload| < n0 then Err(BadRecordMac) else
    var nonce := if explicit then payload[..n0] else Uint(8, h.seqNo);
    var ct := payload[n0..];
    var ad := if h.version == TLS13 then record[..HEADER]
              else Uint(8, h.seqNo) + record[..3] + Uint(2, (|ct| - k.overhead) % 0x1_0000);
    match k.open(nonce, ct, ad)
    case None => Err(BadRecordMac)
    case Some(plaintext) => if h.version == TLS13 then Unwrap13(record[0], plaintext) else Ok(plaintext, record[0])
  }

  function DecryptCbc(k: Keys, h: Half, record: Bytes): (r: (Half, Opened))
    requires |record| >= HEADER && k.block > 0
  {
    var n0, payload := NonceLen(k, h), record[HEADER..];
    if |payload| % k.block != 0 || |payload| < n0 + RoundUp(k.macSize + 1, k.block) || |payload| < n0
    then (h, Err(BadRecordMac)) else
    var iv := if n0 > 0 then payload[..n0] else h.iv;
    var ct := payload[n0..];
    var plain := k.dec(iv, ct);
    var (toRemove, good) := Padding.Tested(ToBits(plain));
    (h.(iv := LastBlock(k, iv, ct)), CheckMac(k, h.seqNo, record, plain, toRemove, good))
  }

  function Decrypt(k: Keys, h: Half, record: Bytes): (r: (Half, Opened))
    requires |record| >= HEADER && k.block > 0
  {
    var payload := record[HEADER..];
    if h.version == TLS13 && record[0] == CHANGE_CIPHER_SPEC then (h, Ok(payload, record[0])) else
    match h.shape
    case Plain => (Counted(h, Ok(payload, record[0])), Ok(payload, record[0]))
    case Stream =>
      var o := CheckMac(k, h.seqNo, record, k.xor(h.pos, payload), 0, 255);
      (Counted(h.(pos := h.pos + |payload|), o), o)
    case Aead(explicit) =>
      var o := DecryptAead(k, h, explicit, record);
      (Counted(h, o), o)
    case Cbc =>
      var (h', o) := DecryptCbc(k, h, record);
      (Counted(h', o), o)
  }

  // ---- One record there and back ----

  /** The receiver's state matches the sender's; without protection only the writer does not count. */
  predicate Synced(s: Half, r: Half)
  {
    && s.version == r.version && s.shape == r.shape && s.pos == r.pos && s.iv == r.iv
    && (s.shape != Plain ==> s.seqNo == r.seqNo)
  }

  predicate Writable(k: Keys, h: Half, typ: Byte, vers: Bytes, payload: Bytes, rand: Bytes)
  {
    && |vers| == 2 && |payload| <= MAX_PLAINTEXT && typ != 0
    && (h.shape == Cbc ==> |rand| == NonceLen(k, h))
    && (h.version == TLS13 ==> h.shape == Plain || h.shape == Aead(false))
    && (h.version == TLS13 && h.shape != Plain ==> typ != CHANGE_CIPHER_SPEC)
  }

  ghost predicate Delivered(k: Keys, s: Half, r: Half, typ: Byte, vers: Bytes, payload: Bytes, rand: Bytes)
    requires 1 <= k.block <= 255
  {
    var (s', record) := Encrypt(k, s, typ, vers, payload, rand);
    && |record| >= HEADER && Synced(s', Decrypt(k, r, record).0) && Decrypt(k, r, record).1 == Ok(payload, typ)
  }

  lemma HeaderShape(typ: Byte, vers: Bytes, n: nat, body: Bytes)
    requires |vers| == 2
    ensures var rec := Header(typ, vers, n) + body;
      && |Header(typ, vers, n)| == HEADER && |rec| == HEADER + |body| && rec[0] == typ && rec[HEADER..] == body
      && rec[..HEADER] == Header(typ, vers, n)
      && rec[..3] == [typ] + vers && forall m: nat :: rec[..3] + Uint(2, m) == Header(typ, vers, m)
  {
    hide Uint;
  }

  lemma PlainDelivered(k: Keys, s: Half, r: Half, typ: Byte, vers: Bytes, payload: Bytes, rand: Bytes)
    requires k.Lawful() && Synced(s, r) && Writable(k, s, typ, vers, payload, rand) && s.shape == Plain
    ensures Delivered(k, s, r, typ, vers, payload, rand)
  {
    hide Header, Uint;
    HeaderShape(typ, vers, |payload|, payload);
  }

  lemma StreamDelivered(k: Keys, s: Half, r: Half, typ: Byte, vers: Bytes, payload: Bytes, rand: Bytes)
    requires k.Lawful() && Synced(s, r) && Writable(k, s, typ, vers, payload, rand) && s.shape == Stream
    ensures Delivered(k, s, r, typ, vers, payload, rand)
  {
    hide Header, Uint, Keys.AeadLaws, Keys.BlockLaws;
    var mac := k.mac(s.seqNo, Header(typ, vers, |payload|), payload);
    var body := k.xor(s.pos, payload) + k.xor(s.pos + |payload|, mac);
    HeaderShape(typ, vers, |body|, body);
    assert body == k.xor(s.pos, payload + mac);
    assert k.xor(s.pos, body) == payload + mac;
    assert (payload + mac)[..|payload|] == payload && (payload + mac)[|payload|..|payload| + |mac|] == mac;
  }

  lemma AeadDelivered(k: Keys, s: Half, r: Half, typ: Byte, vers: Bytes, payload: Bytes, rand: Bytes)
    requires k.Lawful() && Synced(s, r) && Writable(k, s, typ, vers, payload, rand) && s.shape.Aead?
    requires s.version != TLS13
    ensures Delivered(k, s, r, typ, vers, payload, rand)
  {
    hide Header, Uint, Keys.StreamLaws, Keys.BlockLaws;
    var seq8, header := Uint(8, s.seqNo), Header(typ, vers, |payload|);
    var ct := k.seal(seq8, payload, seq8 + header);
    var pre := if s.shape.explicit then seq8 else [];
    HeaderShape(typ, vers, |pre + ct|, pre + ct);
    var rec := Header(typ, vers, |pre + ct|) + (pre + ct);
    assert (pre + ct)[..|pre|] == pre && (pre + ct)[|pre|..] == ct;
    assert (|ct| - k.overhead) % 0x1_0000 == |payload|;
    assert seq8 + rec[..3] + Uint(2, |payload|) == seq8 + header by { Assoc(seq8, rec[..3], Uint(2, |payload|)); }
  }

  lemma Aead13Delivered(k: Keys, s: Half, r: Half, typ: Byte, vers: Bytes, payload: Bytes, rand: Bytes)
    requires k.Lawful() && Synced(s, r) && Writable(k, s, typ, vers, payload, rand) && s.shape.Aead?
    requires s.version == TLS13
    ensures Delivered(k, s, r, typ, vers, payload, rand)
  {
    hide Header, Uint, Keys.StreamLaws, Keys.BlockLaws;
    var seq8, inner := Uint(8, s.seqNo), payload + [typ];
    var outer := Header(APPLICATION_DATA, vers, |inner| + k.overhead);
    var ct := k.seal(seq8, inner, outer);
    HeaderShape(APPLICATION_DATA, vers, |inner| + k.overhead, ct);
    assert outer + [] + ct == outer + ct;
    assert LastNonZero(inner) == |payload|;
    assert inner[..|payload|] == payload;
  }

  lemma PaddingReadBack(body: Bytes, n: nat)
    requires 1 <= n <= 256
    ensures Padding.Plain(ToBits(body + Repeat(n - 1, n))) == (n, 255)
  {
    hide ToBits, Padding.FromEnd, Bits.ToInt, ToBit;
    var bits := ToBits(body + Repeat(n - 1, n));
    BitIsByte(n - 1);
    forall i: nat | i < n ensures Padding.FromEnd(bits, i) == ToBit(n - 1) { EndByte(body, n, i); }
  }

  lemma EndByte(body: Bytes, n: nat, i: nat)
    requires i < n <= 256
    ensures Padding.FromEnd(ToBits(body + Repeat(n - 1, n)), i) == ToBit(n - 1)
  {
    hide ToBit;
    var d := body + Repeat(n - 1, n);
    assert d[|d| - 1 - i] == n - 1;
  }

  lemma BitIsByte(b: Byte)
    ensures Bits.ToInt(ToBit(b)) == b
  {
    hide Bits.ToInt, Bits.FromInt;
    Bits.ToIntFromInt(b);
  }

  lemma CbcMacCheck(k: Keys, seqNo: nat, record: Bytes, typ: Byte, vers: Bytes, payload: Bytes)
    requires k.Lawful() && |record| >= HEADER && |vers| == 2 && |payload| <= MAX_PLAINTEXT && record[0] == typ
    requires forall m: nat :: record[..3] + Uint(2, m) == Header(typ, vers, m)
    ensures var plain := CbcBody(k, payload, k.mac(seqNo, Header(typ, vers, |payload|), payload));
      var (toRemove, good) := Padding.Tested(ToBits(plain));
      && CheckMac(k, seqNo, record, plain, toRemove, good) == Ok(payload, typ)
      && |plain| % k.block == 0 && |plain| >= RoundUp(k.macSize + 1, k.block)
  {
    hide Header, Uint, Keys.StreamLaws, Keys.AeadLaws, Padding.Plain, Padding.Tested, RoundUp, Keys.BlockLaws;
    BlockBounds(k);
    var mac := k.mac(seqNo, Header(typ, vers, |payload|), payload);
    var n := PadTo(k.block, |payload| + |mac|);
    var plain := CbcBody(k, payload, mac);
    PaddingReadBack(payload + mac, n);
    PaddingShort(plain);
    assert plain[..|payload|] == payload && plain[|payload|..|payload| + |mac|] == mac;
    RoundUpLeast(k.macSize + 1, k.block, |plain|);
  }

  lemma BlockBounds(k: Keys)
    requires k.Lawful()
    ensures 1 <= k.block <= 255
  {
  }

  lemma PaddingShort(plain: Bytes)
    requires 0 < |plain| < 0x8000_0000
    ensures Padding.Tested(ToBits(plain)) == Padding.Plain(ToBits(plain))
  {
    Padding.MatchesPlainExactly(ToBits(plain));
  }

  /** A multiple of b that is at least a is at least a rounded up. */
  lemma RoundUpLeast(a: nat, b: nat, n: nat)
    requires b > 0 && a <= n && n % b == 0
    ensures RoundUp(a, b) <= n
  {
    var q, r := a / b, a % b;
    assert a == q * b + r;
    if r == 0 {
      assert (b - r) % b == 0 by { MulMod(1, b); }
    } else {
      ModUnique(b - r, b, 0, b - r);
      var m := n / b;
      assert n == m * b;
      if m <= q {
        MulMono(m, q, b);
      } else {
        MulMono(q + 1, m, b);
      }
    }
  }

  lemma MulMono(x: nat, y: nat, b: nat)
    requires x <= y
    ensures x * b <= y * b
  {
  }

  lemma CbcDelivered(k: Keys, s: Half, r: Half, typ: Byte, vers: Bytes, payload: Bytes, rand: Bytes)
    requires k.Lawful() && Synced(s, r) && Writable(k, s, typ, vers, payload, rand) && s.shape == Cbc
    ensures Delivered(k, s, r, typ, vers, payload, rand)
  {
    hide Header, Uint, Keys.StreamLaws, Keys.AeadLaws, CheckMac, CbcBody, Padding.Tested, RoundUp, LastBlock;
    var plain := CbcBody(k, payload, k.mac(s.seqNo, Header(typ, vers, |payload|), payload));
    var n0 := NonceLen(k, s);
    var iv := if n0 > 0 then rand else s.iv;
    var ct := k.enc(iv, plain);
    var body := (if n0 > 0 then rand else []) + ct;
    var rec := Header(typ, vers, |body|) + body;
    HeaderShape(typ, vers, |body|, body);
    CbcMacCheck(k, s.seqNo, rec, typ, vers, payload);
    assert body[..n0] == (if n0 > 0 then rand else []) && body[n0..] == ct;
    assert |body| % k.block == 0 by { BlockSum(n0, |ct|, k.block); }
  }

  lemma BlockSum(n0: nat, n: nat, b: nat)
    requires b > 0 && (n0 == 0 || n0 == b) && n % b == 0
    ensures (n0 + n) % b == 0
  {
    var q := n / b;
    assert n == q * b;
    if n0 == b {
      assert n0 + n == (q + 1) * b;
      MulMod(q + 1, b);
    }
  }

  /** One record in any shape: the receiver gets the type and payload written, and both sides stay in
      step. */
  lemma OneRecord(k: Keys, s: Half, r: Half, typ: Byte, vers: Bytes, payload: Bytes, rand: Bytes)
    requires k.Lawful() && Synced(s, r) && Writable(k, s, typ, vers, payload, rand)
    ensures Delivered(k, s, r, typ, vers, payload, rand)
  {
    hide Delivered, Keys.Lawful, Writable, Synced;
    match s.shape
    case Plain => PlainDelivered(k, s, r, typ, vers, payload, rand);
    case Stream => StreamDelivered(k, s, r, typ, vers, payload, rand);
    case Aead(_) =>
      if s.version == TLS13 { Aead13Delivered(k, s, r, typ, vers, payload, rand); }
      else { AeadDelivered(k, s, r, typ, vers, payload, rand); }
    case Cbc => CbcDelivered(k, s, r, typ, vers, payload, rand);
  }

  // ---- What the receiver accepts, from any sender ----

  /** In the stream shape exactly the payload followed by its MAC is accepted. */
  lemma StreamAcceptsExactly(k: Keys, h: Half, record: Bytes, p: Bytes, typ: Byte)
    requires k.Lawful() && h.shape == Stream && h.version != TLS13 && |record| >= HEADER
    ensures Decrypt(k, h, record).1 == Ok(p, typ) <==>
            typ == record[0] && k.xor(h.pos, record[HEADER..]) == p + k.mac(h.seqNo, record[..3] + Uint(2, |p|), p)
  {
    hide Uint, Keys.AeadLaws, Keys.BlockLaws;
    BlockBounds(k);
    var plain := k.xor(h.pos, record[HEADER..]);
    var n := |plain| - k.macSize;
    if plain == p + k.mac(h.seqNo, record[..3] + Uint(2, |p|), p) {
      assert n == |p| && plain[..n] == p && plain[n..n + k.macSize] == k.mac(h.seqNo, record[..3] + Uint(2, |p|), p);
    }
    if n >= 0 { assert plain == plain[..n] + plain[n..n + k.macSize]; }
  }

  lemma PaddedEnds(plain: Bytes, n: nat)
    requires 0 < |plain| < 0x8000_0000 && Padding.Tested(ToBits(plain)) == (n, 255)
    ensures 1 <= n <= |plain| && n <= 256 && plain[|plain| - n..] == Repeat(n - 1, n)
  {
    hide Padding.Tested, Bits.ToInt, ToBit;
    PaddingShort(plain);
    var bits := ToBits(plain);
    var b := Padding.FromEnd(bits, 0);
    forall i | |plain| - n <= i < |plain| ensures plain[i] == n - 1 {
      assert Padding.FromEnd(bits, |plain| - 1 - i) == b;
      assert ToBit(plain[i]) == b;
      BitIsByte(plain[i]);
    }
  }

  /** In the CBC shape the padding must be valid, and what is accepted is the payload, its MAC and that
      padding. The one exception is an empty payload whose MAC the padding runs into. */
  lemma CbcAcceptsOnly(k: Keys, seqNo: nat, record: Bytes, plain: Bytes, n: nat, good: bv8, p: Bytes, typ: Byte)
    requires |record| >= HEADER && 0 < |plain| < 0x8000_0000 && Padding.Tested(ToBits(plain)) == (n, good)
    requires CheckMac(k, seqNo, record, plain, n, good) == Ok(p, typ)
    ensures typ == record[0] && good == 255 && 1 <= n <= 256
    ensures |plain| >= k.macSize + n ==> plain == p + k.mac(seqNo, record[..3] + Uint(2, |p|), p) + Repeat(n - 1, n)
    ensures |plain| < k.macSize + n ==> p == [] && k.mac(seqNo, record[..3] + Uint(2, 0), []) <= plain
  {
    hide Uint, Padding.Tested, CheckMac, Repeat, ToBits;
    CheckMacMeans(k, seqNo, record, plain, n, good, p, typ);
    PaddedEnds(plain, n);
    if |plain| >= k.macSize + n { ThreeParts(plain, |plain| - k.macSize - n, |plain| - n); }
  }

  /** The n bytes of valid padding. */
  function PadBytes(n: nat): (r: Bytes)
    requires 1 <= n <= 256
    ensures |r| == n
  {
    Repeat(n - 1, n)
  }

  /** Content, its MAC and valid padding. */
  ghost predicate Padded(k: Keys, seqNo: nat, record: Bytes, plain: Bytes, p: Bytes)
    requires |record| >= HEADER
  {
    exists n: nat | 1 <= n <= 256 :: plain == p + k.mac(seqNo, record[..3] + Uint(2, |p|), p) + PadBytes(n)
  }

  /** Valid padding that runs into the MAC of an empty content at the front. */
  ghost predicate Overrun(k: Keys, seqNo: nat, record: Bytes, plain: Bytes, p: Bytes)
    requires |record| >= HEADER
  {
    && p == [] && k.mac(seqNo, record[..3] + Uint(2, |p|), p) <= plain
    && exists n: nat | 1 <= n <= 256 :: n <= |plain| < k.macSize + n && plain[|plain| - n..] == PadBytes(n)
  }

  lemma PaddedTests(plain: Bytes, n: nat)
    requires 1 <= n <= 256 && n <= |plain| < 0x8000_0000 && plain[|plain| - n..] == PadBytes(n)
    ensures Padding.Tested(ToBits(plain)) == (n, 255)
  {
    hide Padding.Tested, ToBits, Padding.Plain;
    PaddingShort(plain);
    assert plain == plain[..|plain| - n] + Repeat(n - 1, n);
    PaddingReadBack(plain[..|plain| - n], n);
  }

  ghost predicate Accepts(k: Keys, seqNo: nat, record: Bytes, plain: Bytes, p: Bytes, typ: Byte)
    requires |record| >= HEADER
  {
    var (n, good) := Padding.Tested(ToBits(plain));
    CheckMac(k, seqNo, record, plain, n, good) == Ok(p, typ)
  }

  /** What a CBC record opens to, exactly: with constant-time padding removal and MAC check, the receiver
      accepts content followed by its MAC and valid padding, and besides only the overrun. */
  lemma CbcAcceptsExactly(k: Keys, seqNo: nat, record: Bytes, plain: Bytes, p: Bytes, typ: Byte)
    requires k.Lawful() && |record| >= HEADER && 0 < |plain| < 0x8000_0000
    ensures Accepts(k, seqNo, record, plain, p, typ) <==>
            typ == record[0] && (Padded(k, seqNo, record, plain, p) || Overrun(k, seqNo, record, plain, p))
  {
    hide Accepts, Padded, Overrun;
    if Accepts(k, seqNo, record, plain, p, typ) { AcceptedIsPadded(k, seqNo, record, plain, p, typ); }
    if Padded(k, seqNo, record, plain, p) { PaddedIsAccepted(k, seqNo, record, plain, p); }
    if Overrun(k, seqNo, record, plain, p) { OverrunIsAccepted(k, seqNo, record, plain, p); }
  }

  lemma AcceptedIsPadded(k: Keys, seqNo: nat, record: Bytes, plain: Bytes, p: Bytes, typ: Byte)
    requires |record| >= HEADER && 0 < |plain| < 0x8000_0000 && Accepts(k, seqNo, record, plain, p, typ)
    ensures typ == record[0] && (Padded(k, seqNo, record, plain, p) || Overrun(k, seqNo, record, plain, p))
  {
    hide Uint, Padding.Tested, CheckMac, Repeat, ToBits;
    var (n, good) := Padding.Tested(ToBits(plain));
    CbcAcceptsOnly(k, seqNo, record, plain, n, good, p, typ);
    PaddedEnds(plain, n);
    assert PadBytes(n) == Repeat(n - 1, n);
  }

  lemma PaddedIsAccepted(k: Keys, seqNo: nat, record: Bytes, plain: Bytes, p: Bytes)
    requires k.Lawful() && |record| >= HEADER && 0 < |plain| < 0x8000_0000 && Padded(k, seqNo, record, plain, p)
    ensures Accepts(k, seqNo, record, plain, p, record[0])
  {
    hide Uint, Padding.Tested, CheckMac, PadBytes, ToBits, Keys.StreamLaws, Keys.AeadLaws, Keys.BlockLaws;
    var n: nat :| 1 <= n <= 256 && plain == p + k.mac(seqNo, record[..3] + Uint(2, |p|), p) + PadBytes(n);
    assert plain[|plain| - n..] == PadBytes(n);
    PaddedTests(plain, n);
    MacMatches(k, seqNo, record, plain, n, p);
  }

  lemma OverrunIsAccepted(k: Keys, seqNo: nat, record: Bytes, plain: Bytes, p: Bytes)
    requires k.Lawful() && |record| >= HEADER && 0 < |plain| < 0x8000_0000 && Overrun(k, seqNo, record, plain, p)
    ensures Accepts(k, seqNo, record, plain, p, record[0])
  {
    hide Uint, Padding.Tested, CheckMac, PadBytes, ToBits, Keys.StreamLaws, Keys.AeadLaws, Keys.BlockLaws;
    var n: nat :| 1 <= n <= 256 && n <= |plain| < k.macSize + n && plain[|plain| - n..] == PadBytes(n);
    PaddedTests(plain, n);
    var mac := k.mac(seqNo, record[..3] + Uint(2, |p|), p);
    assert p + mac == mac;
    MacMatches(k, seqNo, record, plain, n, p);
  }

  lemma MacMatches(k: Keys, seqNo: nat, record: Bytes, plain: Bytes, n: nat, p: Bytes)
    requires |record| >= HEADER && |plain| >= k.macSize
    requires |p| == if |plain| - k.macSize - n < 0 then 0 else |plain| - k.macSize - n
    requires p + k.mac(seqNo, record[..3] + Uint(2, |p|), p) <= plain
    requires |k.mac(seqNo, record[..3] + Uint(2, |p|), p)| == k.macSize
    ensures CheckMac(k, seqNo, record, plain, n, 255) == Ok(p, record[0])
  {
    hide Uint;
    var mac := k.mac(seqNo, record[..3] + Uint(2, |p|), p);
    assert plain[..|p|] == (p + mac)[..|p|] == p;
    assert plain[|p|..|p| + k.macSize] == (p + mac)[|p|..] == mac;
  }

  lemma ThreeParts(s: Bytes, i: nat, j: nat)
    requires i <= j <= |s|
    ensures s == s[..i] + s[i..j] + s[j..]
  {
  }

  lemma CheckMacMeans(k: Keys, seqNo: nat, record: Bytes, plain: Bytes, toRemove: nat, good: bv8, p: Bytes, typ: Byte)
    requires |record| >= HEADER && CheckMac(k, seqNo, record, plain, toRemove, good) == Ok(p, typ)
    ensures var m := if |plain| - k.macSize - toRemove < 0 then 0 else |plain| - k.macSize - toRemove;
      && good == 255 && typ == record[0] && m + k.macSize <= |plain| && p == plain[..m]
      && k.mac(seqNo, record[..3] + Uint(2, |p|), p) == plain[m..m + k.macSize]
  {
    hide Uint;
  }

  /** A TLS 1.3 inner plaintext is accepted exactly as content, a non-zero type and any zeros; or empty, when
      it passes for empty application data. */
  lemma UnwrapExactly(plaintext: Bytes, p: Bytes, typ: Byte)
    requires |plaintext| <= MAX_PLAINTEXT + 1
    ensures Unwrap13(APPLICATION_DATA, plaintext) == Ok(p, typ) <==>
            if plaintext == [] then p == [] && typ == APPLICATION_DATA
            else typ != 0 && |p| < |plaintext| && plaintext == p + [typ] + Repeat(0, |plaintext| - |p| - 1)
  {
    var i := LastNonZero(plaintext);
    if i >= 0 { assert plaintext == plaintext[..i] + [plaintext[i]] + Repeat(0, |plaintext| - i - 1); }
    if typ != 0 && |p| < |plaintext| && plaintext == p + [typ] + Repeat(0, |plaintext| - |p| - 1) {
      assert plaintext[|p|] == typ;
      assert forall j | |p| < j < |plaintext| :: plaintext[j] == 0;
      assert i == |p|;
      assert plaintext[..|p|] == p;
    }
  }

  /** The body of a record that is not a TLS 1.3 change_cipher_spec: the explicit nonce, if there is one, and a
      ciphertext that opens under it, the record's number and its header. */
  ghost predicate Authentic(k: Keys, h: Half, record: Bytes, nonce: Bytes, ct: Bytes, plaintext: Bytes)
    requires |record| >= 5 && h.shape.Aead?
  {
    && (if h.shape.explicit then |nonce| == 8 && record[5..] == nonce + ct
        else nonce == Uint(8, h.seqNo) && record[5..] == ct)
    && k.open(nonce, ct, if h.version == 0x0304 then record[..5]
                         else Uint(8, h.seqNo) + record[..3] + Uint(2, (|ct| - k.overhead) % 65536)) == Some(plaintext)
  }

  /** From any sender: an AEAD record is accepted exactly when its body opens; in TLS 1.3 it must also be
      application data of at most 16385 bytes, with the content type behind the content. */
  lemma AeadAcceptsExactly(k: Keys, h: Half, record: Bytes, p: Bytes, typ: Byte)
    requires k.block > 0 && h.shape.Aead? && |record| >= 5
    requires h.version == 0x0304 ==> record[0] != 20
    ensures Decrypt(k, h, record).1 == Ok(p, typ) <==>
            exists nonce: Bytes, ct: Bytes, plaintext: Bytes ::
              && Authentic(k, h, record, nonce, ct, plaintext)
              && if h.version != 0x0304 then typ == record[0] && p == plaintext
                 else record[0] == 23 && |plaintext| <= 16385 && Unwrap13(23, plaintext) == Ok(p, typ)
  {
    hide Unwrap13, Uint;
    var payload := record[HEADER..];
    if Decrypt(k, h, record).1 == Ok(p, typ) {
      AeadOpened(k, h, record, p, typ);
    }
    forall nonce: Bytes, ct: Bytes, plaintext: Bytes | Authentic(k, h, record, nonce, ct, plaintext)
      ensures DecryptAead(k, h, h.shape.explicit, record) ==
              if h.version == TLS13 then Unwrap13(record[0], plaintext) else Ok(plaintext, record[0])
    {
      if h.shape.explicit { assert payload[..8] == nonce && payload[8..] == ct; } else { assert payload[0..] == ct; }
    }
  }

  lemma AeadOpened(k: Keys, h: Half, record: Bytes, p: Bytes, typ: Byte)
    requires k.block > 0 && h.shape.Aead? && |record| >= 5 && DecryptAead(k, h, h.shape.explicit, record) == Ok(p, typ)
    ensures exists nonce: Bytes, ct: Bytes, plaintext: Bytes ::
              && Authentic(k, h, record, nonce, ct, plaintext)
              && if h.version != 0x0304 then typ == record[0] && p == plaintext
                 else record[0] == 23 && |plaintext| <= 16385 && Unwrap13(23, plaintext) == Ok(p, typ)
  {
    hide Uint;
    var payload, n0 := record[HEADER..], if h.shape.explicit then 8 else 0;
    var nonce := if h.shape.explicit then payload[..8] else Uint(8, h.seqNo);
    var ct := payload[n0..];
    var ad := if h.version == TLS13 then record[..HEADER]
              else Uint(8, h.seqNo) + record[..3] + Uint(2, (|ct| - k.overhead) % 0x1_0000);
    assert Authentic(k, h, record, nonce, ct, k.open(nonce, ct, ad).value);
  }

  /** The IV of a CBC record: from TLS 1.1 on it is fresh and leads the body, in TLS 1.0 it is the last block of the
      record before. */
  lemma CbcIv(k: Keys, h: Half, typ: Byte, vers: Bytes, payload: Bytes, rand: Bytes)
    requires k.Lawful() && h.shape == Cbc && |vers| == 2
    ensures var dst := CbcBody(k, payload, k.mac(h.seqNo, [typ] + vers + Uint(2, |payload|), payload));
            var (h', record) := Encrypt(k, h, typ, vers, payload, rand);
            var ct := k.enc(if h.version >= 0x0302 then rand else h.iv, dst);
            && |record| >= 5 && record[5..] == (if h.version >= 0x0302 then rand + ct else ct)
            && |ct| >= k.block && h'.iv == ct[|ct| - k.block..]
  {
    hide Uint, Keys.StreamLaws, Keys.AeadLaws;
    var dst := CbcBody(k, payload, k.mac(h.seqNo, Header(typ, vers, |payload|), payload));
    var ct := k.enc(if h.version >= 0x0302 then rand else h.iv, dst);
    assert |dst| % k.block == 0 && |ct| == |dst|;
    WholeBlock(|dst|, k.block);
    var body := if h.version >= 0x0302 then rand + ct else ct;
    assert [] + ct == ct;
    HeaderShape(typ, vers, |body|, body);
  }

  lemma WholeBlock(n: nat, b: nat)
    requires b > 0 && n > 0 && n % b == 0
    ensures n >= b
  {
  }

  /** A record that is refused does not count, and one that is accepted does, except the change_cipher_spec of
      TLS 1.3. */
  lemma AcceptedCounts(k: Keys, h: Half, record: Bytes)
    requires |record| >= 5 && k.block > 0
    ensures var (h', o) := Decrypt(k, h, record);
            h'.seqNo == if o.Ok? && !(h.version == 0x0304 && record[0] == 20) then h.seqNo + 1 else h.seqNo
  {
    hide CheckMac, DecryptAead, Padding.Tested, LastBlock, RoundUp;
  }
}
