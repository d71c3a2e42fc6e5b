/** readRecordOrCCS with its retries. */
module Reader {
  import opened Wire
  import opened Record
  import opened RecordRun
  import Padding

  const MAX_USELESS_RECORDS := 32
  const ALERT: Byte := 21
  const HANDSHAKE: Byte := 22
  const CLOSE_NOTIFY: Byte := 0
  const LEVEL_WARNING: Byte := 1
  const LEVEL_ERROR: Byte := 2

  /** The next thing the network brings: a failed read, before or inside a record, or the five header
      bytes with as many bytes after them as the header says. */
  datatype Arrival = ReadError(temporary: bool) | HeaderThenError(header: Bytes, temporary: bool) | Frame(record: Bytes)

  function HeaderOf(a: Arrival): (r: Bytes)
    requires !a.ReadError?
  {
    if a.Frame? then (if |a.record| >= HEADER then a.record[..HEADER] else []) else a.header
  }

  function Claimed(header: Bytes): (r: nat)
    requires |header| == HEADER
  {
    UintVal(header[3..5])
  }

  predicate WellFormed(a: Arrival)
  {
    match a
    case ReadError(_) => true
    case HeaderThenError(header, _) => |header| == HEADER
    case Frame(record) => |record| >= HEADER && |record| == HEADER + Claimed(record[..HEADER])
  }

  /** The headers a reader goes on with: not an SSLv2 hello during the handshake; the negotiated version, or
      on the first record an alert or a handshake message of a version below 16; and no more bytes than the
      version allows. */
  predicate HeaderOk(vers: nat, haveVers: bool, complete: bool, header: Bytes)
    requires |header| == HEADER
  {
    var typ, v := header[0], UintVal(header[1..3]);
    && (complete || typ != 0x80)
    && (if haveVers then v == (if vers == TLS13 then TLS12 else vers)
        else (typ == ALERT || typ == HANDSHAKE) && v < 0x1000)
    && Claimed(header) <= (if vers == TLS13 then MAX_CIPHERTEXT_TLS13 else MAX_CIPHERTEXT)
  }

  lemma DecryptKeepsShape(k: Keys, h: Half, record: Bytes)
    requires |record| >= HEADER && k.block > 0
    ensures Decrypt(k, h, record).0.shape == h.shape && Decrypt(k, h, record).0.version == h.version
  {
    hide CheckMac, DecryptAead, Padding.Tested, LastBlock, RoundUp;
  }

  datatype Pending = Pending(k: Keys, shape: Shape, iv: Bytes)

  datatype Failure =
    | PendingInput | OnQuic | Network | BadHeader | BadRecord | Unexpected | RemoteAlert | Eof | TooManyIgnored

  // ---- What a call does, as a function of the reader's state ----

  datatype In = In(k: Keys, half: Half, quic: bool, complete: bool, vers: nat, haveVers: bool, err: Option<Failure>,
                   input: Bytes, hand: Bytes, retryCount: nat, nextCipher: Option<Pending>, arrivals: seq<Arrival>,
                   changes: nat)
  {
    predicate Ok()
    {
      && k.block > 0 && (nextCipher.Some? ==> nextCipher.value.k.block > 0)
      && forall i | 0 <= i < |arrivals| :: WellFormed(arrivals[i])
    }

    function Fail(f: Failure): (r: (In, Option<Failure>)) { (this.(err := Some(f)), Some(f)) }
  }

  /** What one opened record is for a reader. */
  datatype Effect = Append(bytes: Bytes) | Deliver(bytes: Bytes) | NewCipher | Skip | Stop(f: Failure)

  function EffectOf(s: In, data: Bytes, typ: Byte, expectChange: bool): (r: Effect)
  {
    if |data| > MAX_PLAINTEXT then Stop(Unexpected)
    else if typ == HANDSHAKE then (if data != [] && !expectChange then Append(data) else Stop(Unexpected))
    else if s.vers == TLS13 && s.hand != [] then Stop(Unexpected)
    else if typ == APPLICATION_DATA then
      if s.half.shape == Plain || !s.complete || expectChange then Stop(Unexpected)
      else if data == [] then Skip else Deliver(data)
    else if typ == ALERT then
      if |data| != 2 then Stop(Unexpected)
      else if data[1] == CLOSE_NOTIFY then Stop(Eof)
      else if s.vers == TLS13 || data[0] == LEVEL_ERROR then Stop(RemoteAlert)
      else if data[0] == LEVEL_WARNING then Skip else Stop(Unexpected)
    else if typ == CHANGE_CIPHER_SPEC && data == [1] && s.hand == [] then
      if s.vers == TLS13 && !s.complete then Skip
      else if expectChange && s.nextCipher.Some? && s.half.version != TLS13 then NewCipher else Stop(Unexpected)
    else Stop(Unexpected)
  }

  function Apply(s: In, data: Bytes, typ: Byte, expectChange: bool): (r: (In, Option<Failure>))
    requires s.Ok()
    decreases |s.arrivals|, 2
  {
    match EffectOf(s, data, typ, expectChange)
    case Append(bytes) => (s.(hand := s.hand + bytes, retryCount := 0), None)
    case Deliver(bytes) => (s.(input := bytes, retryCount := 0), None)
    case NewCipher => (Renewed(s), None)
    case Skip => Retry(s, expectChange)
    case Stop(f) => s.Fail(f)
  }

  /** The pending cipher in force, from sequence number zero. */
  function Renewed(s: In): (r: In)
    requires s.nextCipher.Some?
  {
    var p := s.nextCipher.value;
    s.(k := p.k, half := Half(s.half.version, p.shape, 0, 0, p.iv), nextCipher := None, changes := s.changes + 1)
  }

  function Retry(s: In, expectChange: bool): (r: (In, Option<Failure>))
    requires s.Ok()
    decreases |s.arrivals|, 1
  {
    if s.retryCount >= MAX_USELESS_RECORDS then s.Fail(TooManyIgnored)
    else Read(s.(retryCount := s.retryCount + 1), expectChange)
  }

  function Open(s: In, record: Bytes, expectChange: bool): (r: (In, Option<Failure>))
    requires s.Ok() && |record| >= HEADER
    decreases |s.arrivals|, 3
  {
    var (half, o) := Decrypt(s.k, s.half, record);
    match o
    case Err(_) => s.(half := half).Fail(BadRecord)
    case Ok(data, typ) => Apply(s.(half := half), data, typ, expectChange)
  }

  function Begin(k: Keys, half: Half, quic: bool, complete: bool, arrivals: seq<Arrival>): (r: In)
  {
    In(k, half, quic, complete, 0, false, None, [], [], 0, None, arrivals, 0)
  }

  function Read(s: In, expectChange: bool): (r: (In, Option<Failure>))
    requires s.Ok()
    decreases |s.arrivals|, 0
  {
    if s.err.Some? then (s, s.err)
    else if s.input != [] then s.Fail(PendingInput)
    else if s.quic then s.Fail(OnQuic)
    else if s.arrivals == [] then s.Fail(Network)
    else
      var a, t := s.arrivals[0], s.(arrivals := s.arrivals[1..]);
      if a.ReadError? then (if a.temporary then (t, Some(Network)) else t.Fail(Network))
      else if !HeaderOk(s.vers, s.haveVers, s.complete, HeaderOf(a)) then t.Fail(BadHeader)
      else if a.HeaderThenError? then (if a.temporary then (t, Some(Network)) else t.Fail(Network))
      else Open(t, a.record, expectChange)
  }

  /** The same state; after a lasting error the retry count no longer matters. */
  ghost predicate Agree(a: In, b: In)
  {
    a == b.(retryCount := a.retryCount) && (b.err.None? ==> a.retryCount == b.retryCount)
  }

  lemma RefusedAtOnce(s: In, data: Bytes, typ: Byte, expectChange: bool)
    requires s.Ok()
    requires || |data| > MAX_PLAINTEXT || (s.half.shape == Plain && typ == APPLICATION_DATA)
             || (s.vers == TLS13 && typ != HANDSHAKE && s.hand != [])
             || typ !in {HANDSHAKE, APPLICATION_DATA, ALERT, CHANGE_CIPHER_SPEC}
    ensures Apply(s, data, typ, expectChange) == s.Fail(Unexpected)
  {
  }

  lemma HandshakeApplied(s: In, data: Bytes, expectChange: bool)
    requires s.Ok() && |data| <= MAX_PLAINTEXT
    ensures Apply(s, data, HANDSHAKE, expectChange) ==
            if data == [] || expectChange then s.Fail(Unexpected)
            else (s.(hand := s.hand + data, retryCount := 0), None)
  {
  }

  /** A record that advances the state does not depend on the retry count. */
  lemma CountForgotten(s: In, data: Bytes, typ: Byte, expectChange: bool)
    requires s.Ok() && data != [] && typ != ALERT && typ != CHANGE_CIPHER_SPEC
    ensures var r, r' := Apply(s, data, typ, expectChange), Apply(s.(retryCount := 0), data, typ, expectChange);
            r'.1 == r.1 && forall t | Agree(t, r'.0) :: Agree(t, r.0)
  {
  }

  class InConn {
    const half: HalfConn
    const quic: bool
    const handshakeComplete: bool
    var vers: nat
    var haveVers: bool
    var err: Option<Failure>       // c.in.err
    var input: Bytes
    var hand: Bytes
    var retryCount: nat
    var nextCipher: Option<Pending>
    var arrivals: seq<Arrival>
    var changes: nat               // calls of changeCipherSpec that went through

    constructor (half: HalfConn, quic: bool, handshakeComplete: bool, arrivals: seq<Arrival>)
      requires half.k.block > 0 && forall a | a in arrivals :: WellFormed(a)
      ensures Valid() && this.half == half && State() == Begin(half.k, half.State(), quic, handshakeComplete, arrivals)
    {
      this.half, this.quic, this.handshakeComplete, this.arrivals := half, quic, handshakeComplete, arrivals;
      vers, haveVers, err, input, hand, retryCount, nextCipher, changes := 0, false, None, [], [], 0, None, 0;
    }

    function State(): (r: In)
      reads this, half
    {
      In(half.k, half.State(), quic, handshakeComplete, vers, haveVers, err, input, hand, retryCount, nextCipher,
         arrivals, changes)
    }

    ghost predicate Valid()
      reads this, half
    {
      State().Ok() && retryCount <= MAX_USELESS_RECORDS + (if err.Some? then 1 else 0)
    }

    /** The call ended as the function says. */
    ghost predicate Ended(e: Option<Failure>, r: (In, Option<Failure>))
      reads this, half
    {
      e == r.1 && Agree(State(), r.0)
    }

    /** setErrorLocked. */
    method Fail(f: Failure) returns (e: Option<Failure>)
      modifies this`err
      ensures e == Some(f) && State() == old(State()).(err := Some(f))
    {
      err := Some(f);
      e := err;
    }

    /** changeCipherSpec on the incoming half. */
    method ChangeCipherSpec() returns (ok: bool)
      requires Valid()
      modifies this, half
      ensures ok <==> old(nextCipher).Some? && old(half.version) != TLS13
      ensures State() == if ok then Renewed(old(State())) else old(State())
    {
      if nextCipher.None? || half.version == TLS13 { return false; }
      half.ChangeCipher(nextCipher.value.k, half.version, nextCipher.value.shape, nextCipher.value.iv);
      nextCipher := None;
      changes := changes + 1;
      ok := true;
    }

    /** retryReadRecord. */
    method RetryReadRecord(expectChange: bool) returns (e: Option<Failure>)
      requires Valid() && err.None?
      modifies this, half
      ensures Valid() && Ended(e, Retry(old(State()), expectChange))
      decreases |arrivals|, 1
    {
      hide Read;
      retryCount := retryCount + 1;
      if retryCount > MAX_USELESS_RECORDS {
        e := Fail(TooManyIgnored);
        return;
      }
      e := ReadRecordOrCCS(expectChange);
    }

    /** The checks on the five header bytes. */
    method CheckHeader(header: Bytes) returns (f: Option<Failure>)
      requires |header| == HEADER
      ensures f == if HeaderOk(vers, haveVers, handshakeComplete, header) then None else Some(BadHeader)
    {
      var typ, v, n := header[0], UintVal(header[1..3]), Claimed(header);
      if !handshakeComplete && typ == 0x80 { return Some(BadHeader); }
      var expected := if vers == TLS13 then TLS12 else vers;
      if haveVers && v != expected { return Some(BadHeader); }
      if !haveVers && ((typ != ALERT && typ != HANDSHAKE) || v >= 0x1000) { return Some(BadHeader); }
      if (vers == TLS13 && n > MAX_CIPHERTEXT_TLS13) || n > MAX_CIPHERTEXT { return Some(BadHeader); }
      return None;
    }

    /** readRecordOrCCS. */
    method ReadRecordOrCCS(expectChange: bool) returns (e: Option<Failure>)
      requires Valid()
      modifies this, half
      ensures Valid() && Ended(e, Read(old(State()), expectChange))
      decreases |arrivals|, 0
    {
      hide Decrypt, UintVal, HeaderOk, Apply;
      if err.Some? { return err; }
      if |input| != 0 {
        e := Fail(PendingInput);
        return;
      }
      if quic {
        e := Fail(OnQuic);
        return;
      }
      if |arrivals| == 0 {
        e := Fail(Network);
        return;
      }
      var next := arrivals[0];
      arrivals := arrivals[1..];
      if next.ReadError? {
        if !next.temporary { e := Fail(Network); }
        return Some(Network);
      }
      var bad := CheckHeader(HeaderOf(next));
      if bad.Some? {
        e := Fail(bad.value);
        return;
      }
      if next.HeaderThenError? {
        if !next.temporary { e := Fail(Network); }
        return Some(Network);
      }
      e := OpenRecord(next.record, expectChange);
    }

    /** Decryption, and what follows it. */
    method OpenRecord(record: Bytes, expectChange: bool) returns (e: Option<Failure>)
      requires Valid() && err.None? && |record| >= HEADER
      modifies this, half
      ensures Valid() && Ended(e, Open(old(State()), record, expectChange))
      decreases |arrivals|, 5
    {
      hide Decrypt, Apply;
      var result := half.DecryptRecord(record);
      if result.Err? {
        e := Fail(BadRecord);
        return;
      }
      e := Process(result.plaintext, result.typ, expectChange);
    }

    /** Everything after decryption. */
    method Process(data: Bytes, typ: Byte, expectChange: bool) returns (e: Option<Failure>)
      requires Valid() && err.None?
      modifies this, half
      ensures Valid() && Ended(e, Apply(old(State()), data, typ, expectChange))
      decreases |arrivals|, 4
    {
      hide Apply;
      ghost var s := State();
      if |data| > MAX_PLAINTEXT || (half.shape == Plain && typ == APPLICATION_DATA) {
        RefusedAtOnce(s, data, typ, expectChange);
        e := Fail(Unexpected);
        return;
      }
      if typ != ALERT && typ != CHANGE_CIPHER_SPEC && |data| > 0 {
        CountForgotten(s, data, typ, expectChange);
        retryCount := 0;
      }
      e := Dispatch(data, typ, expectChange);
    }

    /** The switch over the record type. */
    method Dispatch(data: Bytes, typ: Byte, expectChange: bool) returns (e: Option<Failure>)
      requires Valid() && err.None? && |data| <= MAX_PLAINTEXT && !(half.shape == Plain && typ == APPLICATION_DATA)
      requires typ != ALERT && typ != CHANGE_CIPHER_SPEC && data != [] ==> retryCount == 0
      modifies this, half
      ensures Valid() && Ended(e, Apply(old(State()), data, typ, expectChange))
      decreases |arrivals|, 3
    {
      hide Apply;
      ghost var s := State();
      if vers == TLS13 && typ != HANDSHAKE && |hand| > 0 {
        RefusedAtOnce(s, data, typ, expectChange);
        e := Fail(Unexpected);
      } else if typ == ALERT {
        e := ProcessAlert(data, expectChange);
      } else if typ == CHANGE_CIPHER_SPEC {
        e := ProcessChange(data, expectChange);
      } else if typ == APPLICATION_DATA {
        e := ProcessData(data, expectChange);
      } else if typ == HANDSHAKE {
        HandshakeApplied(s, data, expectChange);
        if |data| == 0 || expectChange {
          e := Fail(Unexpected);
        } else {
          hand := hand + data;
          e := None;
        }
      } else {
        RefusedAtOnce(s, data, typ, expectChange);
        e := Fail(Unexpected);
      }
    }

    /** retryCount is reset already when there is data. */
    method ProcessData(data: Bytes, expectChange: bool) returns (e: Option<Failure>)
      requires Valid() && err.None? && |data| <= MAX_PLAINTEXT && half.shape != Plain && !(vers == TLS13 && hand != [])
      requires data != [] ==> retryCount == 0
      modifies this, half
      ensures Valid() && Ended(e, Apply(old(State()), data, APPLICATION_DATA, expectChange))
      decreases |arrivals|, 2
    {
      hide Read;
      if !handshakeComplete || expectChange {
        e := Fail(Unexpected);
        return;
      }
      if |data| == 0 {
        e := RetryReadRecord(expectChange);
        return;
      }
      input := data;
      return None;
    }

    method ProcessAlert(data: Bytes, expectChange: bool) returns (e: Option<Failure>)
      requires Valid() && err.None? && |data| <= MAX_PLAINTEXT && !(vers == TLS13 && hand != [])
      modifies this, half
      ensures Valid() && Ended(e, Apply(old(State()), data, ALERT, expectChange))
      decreases |arrivals|, 2
    {
      hide Read;
      if |data| != 2 {
        e := Fail(Unexpected);
      } else if data[1] == CLOSE_NOTIFY {
        e := Fail(Eof);
      } else if vers == TLS13 {
        e := Fail(RemoteAlert);
      } else if data[0] == LEVEL_WARNING {
        e := RetryReadRecord(expectChange);
      } else if data[0] == LEVEL_ERROR {
        e := Fail(RemoteAlert);
      } else {
        e := Fail(Unexpected);
      }
    }

    method ProcessChange(data: Bytes, expectChange: bool) returns (e: Option<Failure>)
      requires Valid() && err.None? && |data| <= MAX_PLAINTEXT
      modifies this, half
      ensures Valid() && Ended(e, Apply(old(State()), data, CHANGE_CIPHER_SPEC, expectChange))
      decreases |arrivals|, 2
    {
      hide Read;
      if |data| != 1 || data[0] != 1 || |hand| > 0 {
        e := Fail(Unexpected);
        return;
      }
      if vers == TLS13 && !handshakeComplete {
        e := RetryReadRecord(expectChange);
        return;
      }
      if !expectChange {
        e := Fail(Unexpected);
        return;
      }
      var ok := ChangeCipherSpec();
      if !ok {
        e := Fail(Unexpected);
        return;
      }
      return None;
    }
  }
}
