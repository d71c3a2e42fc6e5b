/** What readRecordOrCCS does with each kind of record, exactly, and over runs of useless ones. */
module ReaderRuns {
  import opened Wire
  import opened Record
  import opened RecordRun
  import opened Reader

  /** The reader is free to read, and the next arrival is a record with a good header that opens to data. */
  ghost predicate Opens(s: In, data: Bytes, typ: Byte)
    requires s.Ok()
  {
    && s.err.None? && s.input == [] && !s.quic && s.arrivals != [] && s.arrivals[0].Frame?
    && WellFormed(s.arrivals[0]) && HeaderOk(s.vers, s.haveVers, s.complete, s.arrivals[0].record[..HEADER])
    && Decrypt(s.k, s.half, s.arrivals[0].record).1 == Ok(data, typ)
  }

  /** The state with that record taken and opened. */
  function After(s: In): (r: In)
    requires s.Ok() && s.arrivals != [] && s.arrivals[0].Frame? && WellFormed(s.arrivals[0])
    ensures r.Ok()
  {
    s.(arrivals := s.arrivals[1..], half := Decrypt(s.k, s.half, s.arrivals[0].record).0)
  }

  lemma ReadOpens(s: In, data: Bytes, typ: Byte, expectChange: bool)
    requires s.Ok() && Opens(s, data, typ)
    ensures Read(s, expectChange) == Apply(After(s), data, typ, expectChange)
    ensures After(s).half.shape == s.half.shape && After(s).half.version == s.half.version
  {
    hide Decrypt, HeaderOk, Apply;
    DecryptKeepsShape(s.k, s.half, s.arrivals[0].record);
  }

  /** A whole record is refused for its header, whatever follows, exactly when it looks like an SSLv2 hello
      before the handshake is complete; does not carry the negotiated version, 0x0303 standing for TLS 1.3; is a
      first record that is neither alert nor handshake or claims a version of 0x1000 or more; or is too long. */
  lemma HeaderRefused(s: In, expectChange: bool)
    requires s.Ok() && s.err.None? && s.input == [] && !s.quic && s.arrivals != [] && s.arrivals[0].Frame?
    requires WellFormed(s.arrivals[0])
    ensures var record := s.arrivals[0].record;
            var v, n := 256 * (record[1] as int) + record[2], 256 * (record[3] as int) + record[4];
            var bad :=
              || (record[0] == 0x80 && !s.complete)
              || (s.haveVers && s.vers != 0x0304 && v != s.vers) || (s.haveVers && s.vers == 0x0304 && v != 0x0303)
              || (!s.haveVers && (record[0] !in [21, 22] || v >= 0x1000))
              || n > (if s.vers == 0x0304 then 16384 + 256 else 16384 + 2048);
            && |record| == 5 + n
            && (bad ==> Read(s, expectChange) == s.(arrivals := s.arrivals[1..]).Fail(BadHeader))
            && (!bad ==> var o := Decrypt(s.k, s.half, record).1;
                         if o.Err? then Read(s, expectChange) == After(s).Fail(BadRecord)
                         else Read(s, expectChange) == Apply(After(s), o.plaintext, o.typ, expectChange))
  {
    hide Decrypt, Apply, Read;
    var header := s.arrivals[0].record[..HEADER];
    TwoBytes(header[1..3]);
    TwoBytes(header[3..5]);
    FrameRead(s, expectChange);
  }

  lemma TwoBytes(b: Bytes)
    requires |b| == 2
    ensures UintVal(b) == 256 * (b[0] as int) + b[1]
  {
    assert b[..1] == [b[0]] && [b[0]][..0] == [];
    assert UintVal(b[..1]) == b[0];
  }

  // ---- Record by record ----

  /** A handshake record is appended to hand. */
  lemma HandshakeRead(s: In, data: Bytes)
    requires s.Ok() && Opens(s, data, 22) && 0 < |data| <= 16384
    ensures Read(s, false) == (After(s).(hand := s.hand + data, retryCount := 0), None)
  {
    hide Decrypt, Read;
    ReadOpens(s, data, 22, false);
  }

  /** Application data after the handshake becomes input. */
  lemma DataRead(s: In, data: Bytes)
    requires s.Ok() && Opens(s, data, 23) && 0 < |data| <= 16384
    requires s.complete && s.half.shape != Plain && (s.vers == 0x0304 ==> s.hand == [])
    ensures Read(s, false) == (After(s).(input := data, retryCount := 0), None)
  {
    hide Decrypt, Read;
    ReadOpens(s, data, 23, false);
  }

  /** An expected change_cipher_spec puts the pending cipher in force, from sequence number zero. */
  lemma ChangeRead(s: In)
    requires s.Ok() && Opens(s, [1], 20) && s.hand == [] && s.nextCipher.Some? && s.half.version != 0x0304
    requires s.vers != 0x0304 || s.complete
    ensures var p := s.nextCipher.value;
            Read(s, true) == (After(s).(k := p.k, half := Half(s.half.version, p.shape, 0, 0, p.iv), nextCipher := None,
                                        changes := s.changes + 1), None)
  {
    hide Decrypt, Read;
    ReadOpens(s, [1], 20, true);
  }

  /** A warning before TLS 1.3, change_cipher_spec in a TLS 1.3 handshake, empty application data. */
  predicate Useless(s: In, data: Bytes, typ: Byte, expectChange: bool)
  {
    || (typ == 21 && |data| == 2 && data[0] == 1 && data[1] != 0 && s.vers != 0x0304)
    || (typ == 20 && data == [1] && s.vers == 0x0304 && !s.complete && s.hand == [])
    || (&& typ == 23 && data == [] && s.complete && !expectChange && s.half.shape != Plain
        && (s.vers == 0x0304 ==> s.hand == []))
  }

  /** A useless record within the budget of 32 gives the answer of what comes after it; beyond it is an error. */
  lemma UselessRead(s: In, data: Bytes, typ: Byte, expectChange: bool)
    requires s.Ok() && Opens(s, data, typ) && Useless(s, data, typ, expectChange)
    ensures Read(s, expectChange) ==
            if s.retryCount < 32 then Read(After(s).(retryCount := s.retryCount + 1), expectChange)
            else (After(s).(err := Some(TooManyIgnored)), Some(TooManyIgnored))
  {
    hide Decrypt, Read;
    ReadOpens(s, data, typ, expectChange);
  }

  /** The alerts that end a connection: close_notify is the end of the stream, others are the peer's error. */
  lemma AlertRead(s: In, data: Bytes, expectChange: bool)
    requires s.Ok() && Opens(s, data, 21) && |data| == 2 && (s.vers == 0x0304 ==> s.hand == [])
    requires data[1] == 0 || data[0] == 2 || s.vers == 0x0304
    ensures var f := if data[1] == 0 then Eof else RemoteAlert;
            Read(s, expectChange) == (After(s).(err := Some(f)), Some(f))
  {
    hide Decrypt, Read;
    ReadOpens(s, data, 21, expectChange);
  }

  /** Every other record is an error that changes nothing but the error itself. */
  predicate Welcome(s: In, data: Bytes, typ: Byte, expectChange: bool)
  {
    || (typ == 22 && 0 < |data| <= 16384 && !expectChange)
    || (&& typ == 23 && 0 < |data| <= 16384 && !expectChange && s.complete && s.half.shape != Plain
        && (s.vers == 0x0304 ==> s.hand == []))
    || (&& typ == 20 && data == [1] && expectChange && s.hand == [] && (s.vers != 0x0304 || s.complete)
        && s.nextCipher.Some? && s.half.version != 0x0304)
  }

  lemma OtherwiseStops(s: In, data: Bytes, typ: Byte, expectChange: bool)
    requires s.Ok() && Opens(s, data, typ)
    requires !Welcome(s, data, typ, expectChange) && !Useless(s, data, typ, expectChange)
    ensures var (t, e) := Read(s, expectChange); e.Some? && t == After(s).(err := e)
  {
    hide Decrypt, Read;
    ReadOpens(s, data, typ, expectChange);
  }

  // ---- Runs of useless records ----

  /** The first n arrivals are records that are useless where they stand. */
  ghost predicate AllUseless(s: In, n: nat, expectChange: bool)
    requires s.Ok()
    decreases n
  {
    n == 0 ||
    (exists data, typ :: Opens(s, data, typ) && Useless(s, data, typ, expectChange)
                         && AllUseless(After(s).(retryCount := s.retryCount + 1), n - 1, expectChange))
  }

  function Later(s: In, n: nat): (r: In)
    requires s.Ok() && n <= |s.arrivals| && forall i | 0 <= i < n :: s.arrivals[i].Frame?
    ensures r.Ok()
    decreases n
  {
    if n == 0 then s else Later(After(s).(retryCount := s.retryCount + 1), n - 1)
  }

  lemma {:induction false} UselessFrames(s: In, n: nat, expectChange: bool)
    requires s.Ok() && AllUseless(s, n, expectChange)
    ensures n <= |s.arrivals| && forall i | 0 <= i < n :: s.arrivals[i].Frame?
    decreases n
  {
    hide Decrypt, HeaderOk, Useless;
    if n > 0 {
      var t := After(s).(retryCount := s.retryCount + 1);
      UselessFrames(t, n - 1, expectChange);
      forall i | 0 <= i < n ensures s.arrivals[i].Frame? { if i > 0 { assert s.arrivals[i] == t.arrivals[i - 1]; } }
    }
  }

  /** As long as the budget lasts, any number of useless records is read past; one more ends the connection. */
  lemma {:induction false} UselessRun(s: In, n: nat, expectChange: bool)
    requires s.Ok() && s.retryCount <= 32 && AllUseless(s, n, expectChange)
    ensures n <= |s.arrivals| && forall i | 0 <= i < n :: s.arrivals[i].Frame?
    ensures s.retryCount + n <= 32 ==> Read(s, expectChange) == Read(Later(s, n), expectChange)
    ensures s.retryCount + n > 32 ==> Read(s, expectChange).1 == Some(TooManyIgnored)
    decreases n
  {
    hide Decrypt, HeaderOk, Useless, Read;
    UselessFrames(s, n, expectChange);
    if n > 0 {
      var data, typ :| Opens(s, data, typ) && Useless(s, data, typ, expectChange)
                       && AllUseless(After(s).(retryCount := s.retryCount + 1), n - 1, expectChange);
      UselessRead(s, data, typ, expectChange);
      if s.retryCount < 32 { UselessRun(After(s).(retryCount := s.retryCount + 1), n - 1, expectChange); }
    }
  }

  // ---- Any run ----

  /** t is s after a call that answered e: one of hand, cipher and input has changed, or there is an error. */
  predicate OneThing(s: In, t: In, e: Option<Failure>)
  {
    && t.vers == s.vers && t.haveVers == s.haveVers && s.hand <= t.hand
    && |t.arrivals| <= |s.arrivals| && t.arrivals == s.arrivals[|s.arrivals| - |t.arrivals|..]
    && (if e.Some? then t.hand == s.hand && t.changes == s.changes && t.input == s.input
        else
          || (t.hand != s.hand && t.changes == s.changes && t.input == s.input)
          || (t.hand == s.hand && t.changes == s.changes + 1 && t.input == s.input)
          || (t.hand == s.hand && t.changes == s.changes && t.input != [] && s.input == []))
  }

  /** One and only one thing happens, whatever arrives; and no more is taken than the budget that is left and
      one arrival more. */
  lemma {:induction false} OneThingHappens(s: In, expectChange: bool)
    requires s.Ok() && s.retryCount <= 32
    ensures var (t, e) := Read(s, expectChange); OneThing(s, t, e) && |s.arrivals| - |t.arrivals| <= 33 - s.retryCount
    ensures Read(s, expectChange).1.None? ==> s.err.None? && Read(s, expectChange).0.err.None?
    decreases |s.arrivals|
  {
    hide Decrypt, HeaderOk, EffectOf, Apply, Read, Open;
    if s.err.Some? || s.input != [] || s.quic || s.arrivals == [] || !s.arrivals[0].Frame? {
      NoRecordRead(s, expectChange);
    } else {
      FrameRead(s, expectChange);
      var record := s.arrivals[0].record;
      if HeaderOk(s.vers, s.haveVers, s.complete, record[..HEADER]) && Decrypt(s.k, s.half, record).1.Ok? {
        var o := Decrypt(s.k, s.half, record).1;
        ApplyOneThing(s, o.plaintext, o.typ, expectChange);
      }
    }
  }

  lemma NoRecordRead(s: In, expectChange: bool)
    requires s.Ok() && (s.err.Some? || s.input != [] || s.quic || s.arrivals == [] || !s.arrivals[0].Frame?)
    ensures var (t, e) := Read(s, expectChange);
            e.Some? && OneThing(s, t, e) && |s.arrivals| - |t.arrivals| <= 1
  {
    hide HeaderOk, Open;
  }

  lemma FrameRead(s: In, expectChange: bool)
    requires s.Ok() && s.err.None? && s.input == [] && !s.quic && s.arrivals != [] && s.arrivals[0].Frame?
    ensures var record, t := s.arrivals[0].record, s.(arrivals := s.arrivals[1..]);
            var (half, o) := Decrypt(s.k, s.half, record);
            && (!HeaderOk(s.vers, s.haveVers, s.complete, record[..HEADER]) ==>
                Read(s, expectChange) == t.Fail(BadHeader))
            && (HeaderOk(s.vers, s.haveVers, s.complete, record[..HEADER]) && o.Err? ==>
                Read(s, expectChange) == After(s).Fail(BadRecord))
            && (HeaderOk(s.vers, s.haveVers, s.complete, record[..HEADER]) && o.Ok? ==>
                Read(s, expectChange) == Apply(After(s), o.plaintext, o.typ, expectChange))
  {
    hide HeaderOk, Decrypt, Apply;
  }

  lemma {:induction false} ApplyOneThing(s: In, data: Bytes, typ: Byte, expectChange: bool)
    requires s.Ok() && s.retryCount <= 32 && s.err.None? && s.input == []
    requires s.arrivals != [] && s.arrivals[0].Frame? && WellFormed(s.arrivals[0])
    ensures var (t, e) := Apply(After(s), data, typ, expectChange);
            OneThing(s, t, e) && |s.arrivals| - |t.arrivals| <= 33 - s.retryCount && (e.None? ==> t.err.None?)
    decreases |s.arrivals|, 0
  {
    hide Decrypt, Read, OneThing, EffectOf;
    var u := After(s);
    if EffectOf(u, data, typ, expectChange).Skip? && s.retryCount < 32 {
      var v := u.(retryCount := u.retryCount + 1);
      OneThingHappens(v, expectChange);
      Earlier(s, v, Read(v, expectChange).0, Read(v, expectChange).1);
    } else {
      AtOnce(u, data, typ, expectChange);
      Earlier(s, u, Apply(u, data, typ, expectChange).0, Apply(u, data, typ, expectChange).1);
    }
  }

  lemma Earlier(s: In, u: In, t: In, e: Option<Failure>)
    requires s.arrivals != [] && u.arrivals == s.arrivals[1..] && OneThing(u, t, e)
    requires u.vers == s.vers && u.haveVers == s.haveVers && u.hand == s.hand
    requires u.changes == s.changes && u.input == s.input
    ensures OneThing(s, t, e)
  {
  }

  lemma AtOnce(u: In, data: Bytes, typ: Byte, expectChange: bool)
    requires u.Ok() && u.input == [] && u.err.None?
    requires !(EffectOf(u, data, typ, expectChange).Skip? && u.retryCount < 32)
    ensures var (t, e) := Apply(u, data, typ, expectChange);
            OneThing(u, t, e) && t.arrivals == u.arrivals && (e.None? ==> t.err.None?)
  {
    hide Read, EffectOf, OneThing;
    EffectNotEmpty(u, data, typ, expectChange);
    var (t, e) := Apply(u, data, typ, expectChange);
    match EffectOf(u, data, typ, expectChange)
    case Append(bytes) => Same(u, t, e);
    case Deliver(bytes) => Same(u, t, e);
    case NewCipher => Same(u, t, e);
    case Skip =>
      assert Retry(u, expectChange) == u.Fail(TooManyIgnored);
      Same(u, t, e);
    case Stop(f) => Same(u, t, e);
  }

  lemma Same(u: In, t: In, e: Option<Failure>)
    requires t.arrivals == u.arrivals && t.vers == u.vers && t.haveVers == u.haveVers && u.hand <= t.hand
    requires u.input == []
    requires if e.Some? then t.hand == u.hand && t.changes == u.changes && t.input == u.input
             else || (t.hand != u.hand && t.changes == u.changes && t.input == [])
                  || (t.hand == u.hand && t.changes == u.changes + 1 && t.input == [])
                  || (t.hand == u.hand && t.changes == u.changes && t.input != [])
    ensures OneThing(u, t, e)
  {
  }

  lemma EffectNotEmpty(s: In, data: Bytes, typ: Byte, expectChange: bool)
    ensures var r := EffectOf(s, data, typ, expectChange);
            && (r.Append? || r.Deliver? ==> r.bytes != [] && s.hand + r.bytes != s.hand)
            && (r.NewCipher? ==> s.nextCipher.Some?)
  {
    assert data != [] ==> |s.hand + data| > |s.hand|;
  }
}
