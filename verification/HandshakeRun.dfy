/** Both programs follow the message order of HandshakeAgree, in every interleaving. */
module HandshakeRun {
  import opened Wire
  import opened Certificate
  import opened Handshake
  import opened HandshakeAgree

  // ---- What each endpoint keeps ----

  predicate ClientPhase(k: Crypto, c: Client)
  {
    var p := PhaseOf(k, c.seen);
    match c.pc
    case CStart => c.seen == []
    case CWaitHello(retried) => p == Hello(retried)
    case CSendHello2 => p == Hello2
    case CWaitParameters => p == Params(c.usingPsk) && !c.certReq
    case CWaitCert => p == SCert(c.certReq)
    case CWaitVerify => p == SVerify(c.certReq)
    case CWaitFinished => p == ServerFin(c.certReq)
    case CSendCert => p == CCert
    case CSendVerify => p == CVerify
    case CSendFinished => p.ClientFin?
    case CDone => p == Complete
    case CFailed(_) => true
  }

  predicate ClientHashes(k: Crypto, c: Client)
  {
    match c.pc
    case CStart => c.transcript == [] && !c.certReq
    case CWaitHello(false) => c.seen == [c.hello] && !c.certReq
    case CFailed(_) => true
    case _ => c.transcript == T(k, c.seen) && (Rank(PhaseOf(k, c.seen)) < 4 ==> !c.certReq)
  }

  /** Every use in the log was made of the transcript at its point. */
  predicate LogOk(k: Crypto, view: seq<Bytes>, log: map<Use, Bytes>)
  {
    forall u | u in log :: At(k, view, u) == Some(log[u])
  }

  predicate KeysAt(k: Crypto, view: seq<Bytes>, hsAt: Bytes)
  {
    Rank(PhaseOf(k, view)) >= 4 ==> At(k, view, HandshakeKeys) == Some(hsAt)
  }

  predicate ClientUsed(c: Client)
  {
    match c.pc
    case CWaitParameters => HandshakeKeys in c.log
    case CWaitCert => HandshakeKeys in c.log
    case CWaitVerify => HandshakeKeys in c.log
    case CWaitFinished => HandshakeKeys in c.log
    case CSendCert => {HandshakeKeys, ServerFinishedMac, ApplicationKeys} <= c.log.Keys
    case CSendVerify => {HandshakeKeys, ServerFinishedMac, ApplicationKeys} <= c.log.Keys
    case CSendFinished => {HandshakeKeys, ServerFinishedMac, ApplicationKeys} <= c.log.Keys
    case CDone => {HandshakeKeys, ServerFinishedMac, ApplicationKeys, ClientFinishedMac, ResumptionSecret} <= c.log.Keys
    case _ => true
  }

  ghost predicate ClientInv(k: Crypto, c: Client)
  {
    && WfView(k, c.seen) && ClientPhase(k, c) && ClientHashes(k, c)
    && LogOk(k, c.seen, c.log) && KeysAt(k, c.seen, c.hsAt) && ClientUsed(c)
  }

  predicate ServerPhase(k: Crypto, s: Server)
  {
    var p := PhaseOf(k, s.seen);
    match s.pc
    case SWaitHello => s.seen == []
    case SHaveHello(retried) => p == Hello(retried)
    case SWaitHello2 => p == Hello2
    case SSendParameters => p == Params(s.usingPsk)
    case SSendRequest => p == SCert(false) && s.RequestsCert()
    case SSendCert => p == SCert(s.RequestsCert())
    case SSendVerify => p == SVerify(s.RequestsCert())
    case SSendFinished => p == ServerFin(s.RequestsCert())
    case SWaitCert => p == CCert
    case SWaitVerify => p == CVerify
    case SWaitFinished => p.ClientFin?
    case SDone => p == Complete
    case SFailed(_) => true
  }

  predicate ServerHashes(k: Crypto, s: Server)
  {
    match s.pc
    case SWaitHello => s.transcript == []
    case SHaveHello(false) => s.transcript == [] && s.seen == [s.hello]
    case SHaveHello(true) => |s.seen| == 3 && s.seen[2] == s.hello && s.transcript == T(k, s.seen[..2])
    case SWaitHello2 => s.transcript == T(k, s.seen) && |s.seen| == 2
    case SWaitFinished =>
      var data := Finished(k, ClientHandshake, s.hsAt, T(k, s.seen));
      && WriteFinished(data).Some? && s.clientFinished == data
      && s.transcript == T(k, s.seen) + WriteFinished(data).value
      && ResumptionSecret in s.log && s.log[ResumptionSecret] == s.transcript
    case SFailed(_) => true
    case _ => s.transcript == T(k, s.seen)
  }

  predicate ServerUsed(s: Server)
  {
    match s.pc
    case SSendParameters => HandshakeKeys in s.log
    case SSendRequest => HandshakeKeys in s.log
    case SSendCert => HandshakeKeys in s.log
    case SSendVerify => HandshakeKeys in s.log
    case SSendFinished => HandshakeKeys in s.log
    case SWaitCert => {HandshakeKeys, ServerFinishedMac, ApplicationKeys} <= s.log.Keys
    case SWaitVerify => {HandshakeKeys, ServerFinishedMac, ApplicationKeys} <= s.log.Keys
    case SWaitFinished =>
      {HandshakeKeys, ServerFinishedMac, ApplicationKeys, ClientFinishedMac, ResumptionSecret} <= s.log.Keys
    case SDone => {HandshakeKeys, ServerFinishedMac, ApplicationKeys, ClientFinishedMac, ResumptionSecret} <= s.log.Keys
    case _ => true
  }

  /** The resumption secret is derived one message early. */
  predicate ServerLogs(k: Crypto, s: Server)
  {
    && (if s.pc == SDone then LogOk(k, s.seen, s.log) else LogOk(k, s.seen, s.log - {ResumptionSecret}))
    && (ResumptionSecret in s.log ==> s.pc == SWaitFinished || s.pc == SDone)
  }

  ghost predicate ServerInv(k: Crypto, s: Server)
  {
    && WfView(k, s.seen) && ServerPhase(k, s) && ServerHashes(k, s)
    && ServerLogs(k, s) && KeysAt(k, s.seen, s.hsAt) && ServerUsed(s)
  }

  // ---- One side sends ----

  /** What a sender needs to know of the message it adds. */
  lemma SentCertificate(cm: CertMsg)
    requires WriteCertMsg(cm).Some?
    ensures Typ(WriteCertMsg(cm).value, CERTIFICATE) && !Typ(WriteCertMsg(cm).value, CERTIFICATE_REQUEST)
    ensures EmptyChain(WriteCertMsg(cm).value) <==> cm.cert.chain == []
    ensures ReadCertMsg(WriteCertMsg(cm).value).Some? <==> CertOk(Stripped(cm))
    ensures ReadCertMsg(WriteCertMsg(cm).value).Some? ==>
      WriteCertMsg(ReadCertMsg(WriteCertMsg(cm).value).value) == WriteCertMsg(cm)
  {
    CertMsgRemarshals(cm);
    hide WriteCert, ReadCertMsg;
  }

  lemma SentVerify(v: CertVerify)
    requires WriteCertVerify(v).Some?
    ensures Typ(WriteCertVerify(v).value, CERTIFICATE_VERIFY) && ReadCertVerify(WriteCertVerify(v).value) == Some(v)
  {
    CertVerifyReadsBack(v);
  }

  lemma SentFinished(data: Bytes)
    requires |data| < 0x100_0000
    ensures WriteFinished(data).Some? && Typ(WriteFinished(data).value, FINISHED)
    ensures ReadFinished(WriteFinished(data).value) == Some(data)
  {
    Pow256Values();
    FinishedReadsBack(data);
  }

  lemma HelloSize(k: Crypto, view: seq<Bytes>)
    requires WfView(k, view)
    ensures PhaseOf(k, view) == Hello1 ==> |view| == 0
    ensures PhaseOf(k, view) == Hello(false) ==> |view| == 1
    ensures PhaseOf(k, view) == Hello2 ==> |view| == 2
    ensures Rank(PhaseOf(k, view)) >= 3 ==> |view| >= 2
    ensures PhaseOf(k, view) == Hello(true) ==> |view| == 3
  {
    if view != [] {
      var front := view[..|view| - 1];
      if front != [] { HelloSize(k, front); }
    }
  }

  lemma LogKeep(k: Crypto, view: seq<Bytes>, m: Bytes, log: map<Use, Bytes>)
    requires WfView(k, view) && WfMsg(k, view, m) && Advance(k, PhaseOf(k, view), m) != Bad && LogOk(k, view, log)
    ensures LogOk(k, view + [m], log)
  {
    hide WfMsg, WfView, Advance, At, T, Marks, PhaseOf;
    WfNext(k, view, m);
  }

  lemma LogAdd(k: Crypto, view: seq<Bytes>, log: map<Use, Bytes>, u: Use)
    requires view != [] && Marks(PhaseOf(k, view), u) && LogOk(k, view, log)
    ensures LogOk(k, view, log[u := T(k, view)])
  {
    hide T, Marks, PhaseOf;
    AtPoint(k, view, u);
    hide At;
  }

  /** A use at the phase a view ends in. */
  lemma AtPoint(k: Crypto, view: seq<Bytes>, u: Use)
    requires view != [] && Marks(PhaseOf(k, view), u)
    ensures At(k, view, u) == Some(T(k, view))
  {
  }

  lemma KeysKeep(k: Crypto, view: seq<Bytes>, m: Bytes, hsAt: Bytes)
    requires WfView(k, view) && WfMsg(k, view, m) && Advance(k, PhaseOf(k, view), m) != Bad && KeysAt(k, view, hsAt)
    requires Rank(PhaseOf(k, view)) >= 4 || Rank(Advance(k, PhaseOf(k, view), m)) < 4
    ensures KeysAt(k, view + [m], hsAt)
  {
    hide WfMsg, WfView, Advance, At, T, Marks, Rank, PhaseOf;
    WfNext(k, view, m);
  }

  /** One message more, hashed as it stands: what every later move of either side has in common. */
  lemma Grows(k: Crypto, view: seq<Bytes>, m: Bytes, transcript: Bytes, hsAt: Bytes, log: map<Use, Bytes>)
    requires WfView(k, view) && WfMsg(k, view, m) && Advance(k, PhaseOf(k, view), m) != Bad && |view| >= 2
    requires transcript == T(k, view) && KeysAt(k, view, hsAt) && LogOk(k, view, log)
    requires Rank(PhaseOf(k, view)) >= 4 || Rank(Advance(k, PhaseOf(k, view), m)) < 4
    ensures WfView(k, view + [m]) && PhaseOf(k, view + [m]) == Advance(k, PhaseOf(k, view), m)
    ensures T(k, view + [m]) == transcript + m && KeysAt(k, view + [m], hsAt) && LogOk(k, view + [m], log)
  {
    hide WfMsg, WfView, Advance, At, T, Marks, Rank, LogOk, KeysAt, PhaseOf;
    WfNext(k, view, m);
    LogKeep(k, view, m, log);
    KeysKeep(k, view, m, hsAt);
  }

  lemma VerifyIsNext(k: Crypto, view: seq<Bytes>, side: Side, v: CertVerify, m: Bytes)
    requires if side == ClientSide then PhaseOf(k, view) == CVerify else PhaseOf(k, view).SVerify?
    requires WriteCertVerify(v) == Some(m) && k.verify(side, T(k, view), v)
    ensures WfMsg(k, view, m)
  {
  }

  lemma FinishedIsNext(k: Crypto, view: seq<Bytes>, s: Secret, keys: Bytes, m: Bytes)
    requires if s == ClientHandshake then PhaseOf(k, view).ClientFin? else PhaseOf(k, view).ServerFin?
    requires KeysAt(k, view, keys) && WriteFinished(Finished(k, s, keys, T(k, view))) == Some(m)
    ensures WfMsg(k, view, m)
  {
  }

  lemma CertIsNext(k: Crypto, view: seq<Bytes>, cm: CertMsg, m: Bytes)
    requires PhaseOf(k, view) == CCert || (PhaseOf(k, view).SCert? && cm.cert.chain != [])
    requires WriteCertMsg(cm) == Some(m) && (EmptyChain(m) <==> cm.cert.chain == [])
    ensures WfMsg(k, view, m)
  {
  }

  lemma HelloIsNext(k: Crypto, view: seq<Bytes>, m: Bytes)
    requires (view == [] || PhaseOf(k, view) == Hello2) && Typ(m, CLIENT_HELLO)
    ensures WfMsg(k, view, m) && (view == [] ==> PhaseOf(k, view) == Hello1)
  {
  }

  // ---- The client sends ----

  ghost predicate ClientSent(k: Crypto, c: Client, c': Client, m: Bytes)
  {
    ClientInv(k, c') && c'.seen == c.seen + [m] && ClientsTurn(PhaseOf(k, c.seen)) && !c'.pc.CFailed?
  }

  lemma ClientSendsHello(k: Crypto, c: Client, m: Bytes)
    requires ClientInv(k, c) && ClientSends(k, c, SendHello(m)).Some?
    ensures ClientSent(k, c, ClientSends(k, c, SendHello(m)).value.0, ClientSends(k, c, SendHello(m)).value.1)
  {
    hide T, At, WfMsg, WfView, LogOk, KeysAt, PhaseOf;
    HelloSize(k, c.seen);
    var c' := ClientSends(k, c, SendHello(m)).value.0;
    HelloIsNext(k, c.seen, m);
    if c.pc == CStart {
      assert c'.seen == c.seen + [m] == [m];
      WfNext(k, c.seen, m);
      LogKeep(k, c.seen, m, c.log);
      KeysKeep(k, c.seen, m, c.hsAt);
    } else {
      Grows(k, c.seen, m, c.transcript, c.hsAt, c.log);
    }
  }

  lemma ClientSendsCert(k: Crypto, c: Client, cm: CertMsg)
    requires ClientInv(k, c) && ClientSends(k, c, ClientCert(cm)).Some?
    ensures ClientSent(k, c, ClientSends(k, c, ClientCert(cm)).value.0, ClientSends(k, c, ClientCert(cm)).value.1)
  {
    hide T, At, WriteCertMsg, ReadCertMsg, EmptyChain, WfMsg, WfView, LogOk, KeysAt, PhaseOf;
    HelloSize(k, c.seen);
    var m := ClientSends(k, c, ClientCert(cm)).value.1;
    SentCertificate(cm);
    CertIsNext(k, c.seen, cm, m);
    Grows(k, c.seen, m, c.transcript, c.hsAt, c.log);
  }

  lemma ClientSigns(k: Crypto, c: Client, v: CertVerify)
    requires ClientInv(k, c) && ClientSends(k, c, ClientSign(v)).Some?
    ensures ClientSent(k, c, ClientSends(k, c, ClientSign(v)).value.0, ClientSends(k, c, ClientSign(v)).value.1)
  {
    hide T, At, WriteCertVerify, WfMsg, WfView, LogOk, KeysAt, PhaseOf;
    HelloSize(k, c.seen);
    var m := ClientSends(k, c, ClientSign(v)).value.1;
    LogAdd(k, c.seen, c.log, ClientSignature);
    VerifyIsNext(k, c.seen, ClientSide, v, m);
    Grows(k, c.seen, m, c.transcript, c.hsAt, c.log[ClientSignature := c.transcript]);
  }

  lemma ClientEnds(k: Crypto, c: Client)
    requires ClientInv(k, c) && ClientSends(k, c, ClientFinishes).Some?
    ensures ClientSent(k, c, ClientSends(k, c, ClientFinishes).value.0, ClientSends(k, c, ClientFinishes).value.1)
  {
    hide T, At, WriteFinished, Finished, WfMsg, WfView, LogOk, KeysAt, PhaseOf;
    HelloSize(k, c.seen);
    var m := ClientSends(k, c, ClientFinishes).value.1;
    LogAdd(k, c.seen, c.log, ClientFinishedMac);
    FinishedIsNext(k, c.seen, ClientHandshake, c.hsAt, m);
    Grows(k, c.seen, m, c.transcript, c.hsAt, c.log[ClientFinishedMac := c.transcript]);
    LogAdd(k, c.seen + [m], c.log[ClientFinishedMac := c.transcript], ResumptionSecret);
  }

  lemma ClientSendKeeps(k: Crypto, c: Client, step: Step)
    requires ClientInv(k, c) && ClientSends(k, c, step).Some?
    ensures ClientSent(k, c, ClientSends(k, c, step).value.0, ClientSends(k, c, step).value.1)
  {
    hide ClientInv, ClientSent;
    match step
    case SendHello(m) => ClientSendsHello(k, c, m);
    case ClientCert(cm) => ClientSendsCert(k, c, cm);
    case ClientSign(v) => ClientSigns(k, c, v);
    case ClientFinishes => ClientEnds(k, c);
    case _ =>
  }

  // ---- The client takes a message in ----

  /** m can be the next message of the order. */
  ghost predicate Next(k: Crypto, view: seq<Bytes>, m: Bytes)
  {
    WfMsg(k, view, m) && Advance(k, PhaseOf(k, view), m) != Bad
  }

  /** A certificate whose receiver refuses it. */
  predicate Refused(m: Bytes) { Typ(m, CERTIFICATE) && ReadCertMsg(m).None? }

  ghost predicate ClientTook(k: Crypto, c: Client, c': Client, m: Bytes)
  {
    ClientInv(k, c') && if c'.pc.CFailed? then c' == c.Fail(BadMessage) && Refused(m) else c'.seen == c.seen + [m]
  }

  lemma NextType(k: Crypto, view: seq<Bytes>, m: Bytes)
    requires WfMsg(k, view, m)
    ensures PhaseOf(k, view).Hello? ==> Typ(m, SERVER_HELLO)
    ensures PhaseOf(k, view).Params? ==> Typ(m, ENCRYPTED_EXTENSIONS)
    ensures PhaseOf(k, view).Hello1? || PhaseOf(k, view).Hello2? ==> Typ(m, CLIENT_HELLO)
  {
  }

  lemma FirstTranscript(k: Crypto, hello: Bytes)
    ensures T(k, [hello]) == hello
  {
    assert [hello][..0] == [];
    assert [] + hello == hello;
  }

  lemma TakesServerHello(k: Crypto, c: Client, m: Bytes)
    requires ClientInv(k, c) && c.pc.CWaitHello? && Next(k, c.seen, m)
    ensures ClientTook(k, c, ClientTakes(k, c, m), m)
  {
    hide T, At, WfMsg, WfView, LogOk, KeysAt, MessageHash, PhaseOf;
    NextType(k, c.seen, m);
    FirstTranscript(k, c.hello);
    HelloSize(k, c.seen);
    WfNext(k, c.seen, m);
    LogKeep(k, c.seen, m, c.log);
    if k.isRetry(m) {
      KeysKeep(k, c.seen, m, c.hsAt);
    } else {
      LogAdd(k, c.seen + [m], c.log, HandshakeKeys);
      KeysStart(k, c.seen + [m]);
    }
  }

  lemma KeysStart(k: Crypto, view: seq<Bytes>)
    requires view != [] && PhaseOf(k, view).Params?
    ensures KeysAt(k, view, T(k, view))
  {
  }

  lemma TakesParameters(k: Crypto, c: Client, m: Bytes)
    requires ClientInv(k, c) && c.pc == CWaitParameters && Next(k, c.seen, m)
    ensures ClientTook(k, c, ClientTakes(k, c, m), m)
  {
    hide T, At, WfMsg, WfView, LogOk, KeysAt, PhaseOf;
    NextType(k, c.seen, m);
    HelloSize(k, c.seen);
    Grows(k, c.seen, m, c.transcript, c.hsAt, c.log);
  }

  lemma TakesCertificate(k: Crypto, c: Client, m: Bytes)
    requires ClientInv(k, c) && c.pc == CWaitCert && Next(k, c.seen, m)
    ensures ClientTook(k, c, ClientTakes(k, c, m), m)
  {
    hide T, At, WriteCertMsg, ReadCertMsg, WfMsg, WfView, LogOk, KeysAt, PhaseOf;
    CertificateSent(k, c.seen, m);
    HelloSize(k, c.seen);
    Grows(k, c.seen, m, c.transcript, c.hsAt, c.log);
  }

  /** The server's certificate as its receiver finds it. */
  lemma CertificateSent(k: Crypto, view: seq<Bytes>, m: Bytes)
    requires PhaseOf(k, view).SCert? && WfMsg(k, view, m)
    ensures Typ(m, CERTIFICATE_REQUEST) || (Typ(m, CERTIFICATE) && !Typ(m, CERTIFICATE_REQUEST))
    ensures !Typ(m, CERTIFICATE_REQUEST) && ReadCertMsg(m).Some? ==>
      ReadCertMsg(m).value.cert.chain != [] && WriteCertMsg(ReadCertMsg(m).value) == Some(m)
  {
    hide WriteCertMsg, ReadCertMsg;
    if !Typ(m, CERTIFICATE_REQUEST) {
      var cm: CertMsg :| WriteCertMsg(cm) == Some(m) && cm.cert.chain != [];
      SentCertificate(cm);
    }
  }

  lemma TakesVerify(k: Crypto, c: Client, m: Bytes)
    requires ClientInv(k, c) && c.pc == CWaitVerify && Next(k, c.seen, m)
    ensures ClientTook(k, c, ClientTakes(k, c, m), m)
  {
    hide T, At, WriteCertVerify, ReadCertVerify, WfMsg, WfView, LogOk, KeysAt, PhaseOf;
    var v := VerifySent(k, c.seen, ServerSide, m);
    HelloSize(k, c.seen);
    LogAdd(k, c.seen, c.log, ServerSignature);
    SentVerify(v);
    Grows(k, c.seen, m, c.transcript, c.hsAt, c.log[ServerSignature := c.transcript]);
  }

  lemma VerifySent(k: Crypto, view: seq<Bytes>, side: Side, m: Bytes) returns (v: CertVerify)
    requires if side == ClientSide then PhaseOf(k, view) == CVerify else PhaseOf(k, view).SVerify?
    requires WfMsg(k, view, m)
    ensures WriteCertVerify(v) == Some(m) && k.verify(side, T(k, view), v)
  {
    hide T, WriteCertVerify, PhaseOf;
    v :| WriteCertVerify(v) == Some(m) && k.verify(side, T(k, view), v);
  }

  lemma FinishedSize(k: Crypto, s: Secret, keys: Bytes, transcript: Bytes)
    requires k.Lawful()
    ensures |Finished(k, s, keys, transcript)| < 0x100_0000
  {
  }

  /** The Finished message of the order, checked with the receiver's own keys and transcript. */
  lemma FinishedSent(k: Crypto, view: seq<Bytes>, s: Secret, hsAt: Bytes, m: Bytes)
    requires k.Lawful() && WfMsg(k, view, m) && KeysAt(k, view, hsAt)
    requires if s == ClientHandshake then PhaseOf(k, view).ClientFin? else PhaseOf(k, view).ServerFin?
    ensures Typ(m, FINISHED) && ReadFinished(m) == Some(Finished(k, s, hsAt, T(k, view)))
    ensures WriteFinished(Finished(k, s, hsAt, T(k, view))) == Some(m)
  {
    hide T, At, WriteFinished, ReadFinished, PhaseOf;
    FinishedSize(k, s, hsAt, T(k, view));
    SentFinished(Finished(k, s, hsAt, T(k, view)));
  }

  lemma TakesFinished(k: Crypto, c: Client, m: Bytes)
    requires k.Lawful() && ClientInv(k, c) && c.pc == CWaitFinished && Next(k, c.seen, m)
    ensures ClientTook(k, c, ClientTakes(k, c, m), m)
  {
    hide T, At, WriteFinished, ReadFinished, WfView, WfMsg, LogOk, KeysAt, Finished, PhaseOf;
    HelloSize(k, c.seen);
    FinishedSent(k, c.seen, ServerHandshake, c.hsAt, m);
    LogAdd(k, c.seen, c.log, ServerFinishedMac);
    Grows(k, c.seen, m, c.transcript, c.hsAt, c.log[ServerFinishedMac := c.transcript]);
    LogAdd(k, c.seen + [m], c.log[ServerFinishedMac := c.transcript], ApplicationKeys);
  }

  /** Taking in the next message of the order keeps the client's invariant; the only failure is a
      certificate that does not parse. */
  lemma ClientTakeKeeps(k: Crypto, c: Client, m: Bytes)
    requires k.Lawful() && ClientInv(k, c) && Next(k, c.seen, m) && !c.pc.CFailed? && !ClientsTurn(PhaseOf(k, c.seen))
    ensures ClientTook(k, c, ClientTakes(k, c, m), m)
  {
    hide ClientHashes, LogOk, KeysAt, ClientUsed, ClientTook, T, At;
    match c.pc
    case CWaitHello(_) => TakesServerHello(k, c, m);
    case CWaitParameters => TakesParameters(k, c, m);
    case CWaitCert => TakesCertificate(k, c, m);
    case CWaitVerify => TakesVerify(k, c, m);
    case CWaitFinished => TakesFinished(k, c, m);
    case _ =>
  }

  // ---- The server sends ----

  ghost predicate ServerSent(k: Crypto, s: Server, s': Server, m: Bytes)
  {
    ServerInv(k, s') && s'.seen == s.seen + [m] && !ClientsTurn(PhaseOf(k, s.seen)) && !s'.pc.SFailed?
  }

  lemma HelloReply(k: Crypto, view: seq<Bytes>, m: Bytes)
    requires PhaseOf(k, view).Hello? && Typ(m, SERVER_HELLO)
    ensures WfMsg(k, view, m)
  {
  }

  lemma NoResumption(k: Crypto, s: Server)
    requires ServerInv(k, s) && s.pc != SWaitFinished && s.pc != SDone
    ensures ResumptionSecret !in s.log && LogOk(k, s.seen, s.log)
  {
    hide WfView, PhaseOf, At, T, ServerPhase, ServerHashes, KeysAt, ServerUsed;
    assert s.log - {ResumptionSecret} == s.log;
  }

  /** The log of a server that has not derived the resumption secret. */
  lemma StillNoResumption(k: Crypto, s: Server)
    requires ResumptionSecret !in s.log && LogOk(k, s.seen, s.log)
    ensures ServerLogs(k, s)
  {
    hide LogOk;
    assert s.log - {ResumptionSecret} == s.log;
  }

  lemma ServerRetries(k: Crypto, s: Server, m: Bytes)
    requires ServerInv(k, s) && ServerSends(k, s, Retry(m)).Some?
    ensures ServerSent(k, s, ServerSends(k, s, Retry(m)).value.0, m)
  {
    hide T, At, WfMsg, WfView, LogOk, KeysAt, MessageHash, PhaseOf, ServerLogs;
    HelloSize(k, s.seen);
    HelloReply(k, s.seen, m);
    WfNext(k, s.seen, m);
    NoResumption(k, s);
    LogKeep(k, s.seen, m, s.log);
    KeysKeep(k, s.seen, m, s.hsAt);
    assert s.transcript + s.hello == s.hello;
    StillNoResumption(k, ServerSends(k, s, Retry(m)).value.0);
  }

  lemma HaveHelloTranscript(k: Crypto, s: Server)
    requires ServerHashes(k, s) && s.pc.SHaveHello?
    ensures s.transcript + s.hello == T(k, s.seen)
  {
    hide T;
    FirstTranscript(k, s.hello);
    assert s.pc == SHaveHello(false) ==> s.transcript + s.hello == s.hello;
    if s.pc == SHaveHello(true) {
      assert s.seen == s.seen[..2] + [s.hello];
      TNext(k, s.seen[..2], s.hello);
    }
  }

  lemma ServerAccepts(k: Crypto, s: Server, m: Bytes)
    requires ServerInv(k, s) && ServerSends(k, s, Accept(m)).Some?
    ensures ServerSent(k, s, ServerSends(k, s, Accept(m)).value.0, m)
  {
    hide T, At, WfMsg, WfView, LogOk, KeysAt, MessageHash, PhaseOf, ServerLogs;
    HaveHelloTranscript(k, s);
    HelloSize(k, s.seen);
    HelloReply(k, s.seen, m);
    WfNext(k, s.seen, m);
    NoResumption(k, s);
    LogKeep(k, s.seen, m, s.log);
    LogAdd(k, s.seen + [m], s.log, HandshakeKeys);
    KeysStart(k, s.seen + [m]);
    StillNoResumption(k, ServerSends(k, s, Accept(m)).value.0);
  }

  lemma ParametersNext(k: Crypto, view: seq<Bytes>, m: Bytes)
    requires || (PhaseOf(k, view).Params? && Typ(m, ENCRYPTED_EXTENSIONS))
             || (PhaseOf(k, view).SCert? && Typ(m, CERTIFICATE_REQUEST))
    ensures WfMsg(k, view, m)
  {
  }

  lemma ServerSendsParameters(k: Crypto, s: Server, step: Step)
    requires step.Parameters? || step.Request?
    requires ServerInv(k, s) && ServerSends(k, s, step).Some?
    ensures ServerSent(k, s, ServerSends(k, s, step).value.0, step.m)
  {
    hide T, At, WfMsg, WfView, LogOk, KeysAt, PhaseOf, ServerLogs;
    HelloSize(k, s.seen);
    ParametersNext(k, s.seen, step.m);
    NoResumption(k, s);
    Grows(k, s.seen, step.m, s.transcript, s.hsAt, s.log);
    StillNoResumption(k, ServerSends(k, s, step).value.0);
  }

  lemma ServerSendsCert(k: Crypto, s: Server, cm: CertMsg)
    requires ServerInv(k, s) && ServerSends(k, s, ServerCert(cm)).Some?
    ensures ServerSent(k, s, ServerSends(k, s, ServerCert(cm)).value.0, ServerSends(k, s, ServerCert(cm)).value.1)
  {
    hide T, At, WriteCertMsg, ReadCertMsg, EmptyChain, WfMsg, WfView, LogOk, KeysAt, PhaseOf, ServerLogs;
    HelloSize(k, s.seen);
    var (s', m) := ServerSends(k, s, ServerCert(cm)).value;
    SentCertificate(cm);
    CertIsNext(k, s.seen, cm, m);
    NoResumption(k, s);
    Grows(k, s.seen, m, s.transcript, s.hsAt, s.log);
    StillNoResumption(k, s');
  }

  lemma ServerSigns(k: Crypto, s: Server, v: CertVerify)
    requires ServerInv(k, s) && ServerSends(k, s, ServerSign(v)).Some?
    ensures ServerSent(k, s, ServerSends(k, s, ServerSign(v)).value.0, ServerSends(k, s, ServerSign(v)).value.1)
  {
    hide T, At, WriteCertVerify, WfMsg, WfView, LogOk, KeysAt, PhaseOf, ServerLogs;
    HelloSize(k, s.seen);
    var (s', m) := ServerSends(k, s, ServerSign(v)).value;
    NoResumption(k, s);
    LogAdd(k, s.seen, s.log, ServerSignature);
    VerifyIsNext(k, s.seen, ServerSide, v, m);
    Grows(k, s.seen, m, s.transcript, s.hsAt, s.log[ServerSignature := s.transcript]);
    StillNoResumption(k, s');
  }

  /** Rolling the transcript over the client's Finished before it is there. */
  lemma PrecomputeKeeps(k: Crypto, s: Server)
    requires k.Lawful() && WfView(k, s.seen) && PhaseOf(k, s.seen).ClientFin? && s.transcript == T(k, s.seen)
    requires |s.seen| >= 2
    requires KeysAt(k, s.seen, s.hsAt) && LogOk(k, s.seen, s.log) && ResumptionSecret !in s.log
    requires {HandshakeKeys, ServerFinishedMac, ApplicationKeys} <= s.log.Keys
    ensures ServerInv(k, Precompute(k, s)) && Precompute(k, s).pc == SWaitFinished && Precompute(k, s).seen == s.seen
  {
    hide T, At, WriteFinished, Finished, WfView, LogOk, KeysAt, PhaseOf;
    FinishedSize(k, ClientHandshake, s.hsAt, s.transcript);
    SentFinished(Finished(k, ClientHandshake, s.hsAt, s.transcript));
    LogAdd(k, s.seen, s.log, ClientFinishedMac);
    assert Precompute(k, s).log - {ResumptionSecret} == s.log[ClientFinishedMac := s.transcript];
  }

  lemma ServerEnds(k: Crypto, s: Server)
    requires k.Lawful() && ServerInv(k, s) && ServerSends(k, s, ServerFinishes).Some?
    ensures ServerSent(k, s, ServerSends(k, s, ServerFinishes).value.0, ServerSends(k, s, ServerFinishes).value.1)
  {
    hide T, At, WriteFinished, Finished, WfMsg, WfView, LogOk, KeysAt, PhaseOf, ServerLogs, Precompute;
    HelloSize(k, s.seen);
    var (s', m) := ServerSends(k, s, ServerFinishes).value;
    NoResumption(k, s);
    LogAdd(k, s.seen, s.log, ServerFinishedMac);
    FinishedIsNext(k, s.seen, ServerHandshake, s.hsAt, m);
    var log := s.log[ServerFinishedMac := s.transcript];
    Grows(k, s.seen, m, s.transcript, s.hsAt, log);
    LogAdd(k, s.seen + [m], log, ApplicationKeys);
    var t := s.Use(ServerFinishedMac).Add(m, m, SWaitCert).Use(ApplicationKeys);
    if s.RequestsCert() { StillNoResumption(k, t); } else { PrecomputeKeeps(k, t); }
  }

  lemma ServerSendKeeps(k: Crypto, s: Server, step: Step)
    requires k.Lawful() && ServerInv(k, s) && ServerSends(k, s, step).Some?
    ensures ServerSent(k, s, ServerSends(k, s, step).value.0, ServerSends(k, s, step).value.1)
  {
    hide ServerInv, ServerSent;
    match step
    case Retry(m) => ServerRetries(k, s, m);
    case Accept(m) => ServerAccepts(k, s, m);
    case Parameters(_) => ServerSendsParameters(k, s, step);
    case Request(_) => ServerSendsParameters(k, s, step);
    case ServerCert(cm) => ServerSendsCert(k, s, cm);
    case ServerSign(v) => ServerSigns(k, s, v);
    case ServerFinishes => ServerEnds(k, s);
    case _ =>
  }

  // ---- The server takes a message in ----

  ghost predicate ServerTook(k: Crypto, s: Server, s': Server, m: Bytes)
  {
    ServerInv(k, s') && if s'.pc.SFailed? then s' == s.Fail(BadMessage) && Refused(m) else s'.seen == s.seen + [m]
  }

  lemma ServerTakesHello(k: Crypto, s: Server, m: Bytes)
    requires ServerInv(k, s) && (s.pc == SWaitHello || s.pc == SWaitHello2) && Next(k, s.seen, m)
    ensures ServerTook(k, s, ServerTakes(k, s, m), m)
  {
    hide T, At, WfMsg, WfView, LogOk, KeysAt, PhaseOf, ServerLogs;
    Begins(k);
    NextType(k, s.seen, m);
    HelloSize(k, s.seen);
    WfNext(k, s.seen, m);
    NoResumption(k, s);
    LogKeep(k, s.seen, m, s.log);
    KeysKeep(k, s.seen, m, s.hsAt);
    if s.pc == SWaitHello2 { assert (s.seen + [m])[..2] == s.seen; }
    StillNoResumption(k, ServerTakes(k, s, m));
  }

  lemma Begins(k: Crypto)
    ensures PhaseOf(k, []) == Hello1
  {
  }

  /** The client's certificate as the server finds it. */
  lemma ClientCertificateSent(k: Crypto, view: seq<Bytes>, m: Bytes)
    requires PhaseOf(k, view) == CCert && WfMsg(k, view, m)
    ensures Typ(m, CERTIFICATE)
  {
    hide WriteCertMsg, ReadCertMsg;
    var cm: CertMsg :| WriteCertMsg(cm) == Some(m) && (cm.cert.chain == [] <==> EmptyChain(m));
    SentCertificate(cm);
  }

  lemma ServerTakesCert(k: Crypto, s: Server, m: Bytes)
    requires k.Lawful() && ServerInv(k, s) && s.pc == SWaitCert && Next(k, s.seen, m)
    ensures ServerTook(k, s, ServerTakes(k, s, m), m)
  {
    hide T, At, WriteCertMsg, ReadCertMsg, WfMsg, WfView, LogOk, KeysAt, PhaseOf, ServerLogs, Precompute;
    ClientCertificateSent(k, s.seen, m);
    HelloSize(k, s.seen);
    NoResumption(k, s);
    Grows(k, s.seen, m, s.transcript, s.hsAt, s.log);
    StillNoResumption(k, s.Fail(BadMessage));
    if EmptyChain(m) {
      PrecomputeKeeps(k, s.Add(m, m, SWaitFinished));
    } else {
      StillNoResumption(k, s.Add(m, m, SWaitVerify));
    }
  }

  lemma ServerTakesVerify(k: Crypto, s: Server, m: Bytes)
    requires k.Lawful() && ServerInv(k, s) && s.pc == SWaitVerify && Next(k, s.seen, m)
    ensures ServerTook(k, s, ServerTakes(k, s, m), m)
  {
    hide T, At, WriteCertVerify, ReadCertVerify, WfMsg, WfView, LogOk, KeysAt, PhaseOf, ServerLogs, Precompute;
    var v := VerifySent(k, s.seen, ClientSide, m);
    HelloSize(k, s.seen);
    NoResumption(k, s);
    LogAdd(k, s.seen, s.log, ClientSignature);
    SentVerify(v);
    Grows(k, s.seen, m, s.transcript, s.hsAt, s.log[ClientSignature := s.transcript]);
    PrecomputeKeeps(k, s.Use(ClientSignature).Add(m, m, SWaitFinished));
  }

  lemma ServerTakesFinished(k: Crypto, s: Server, m: Bytes)
    requires k.Lawful() && ServerInv(k, s) && s.pc == SWaitFinished && Next(k, s.seen, m)
    ensures ServerTook(k, s, ServerTakes(k, s, m), m)
  {
    hide T, At, WriteFinished, ReadFinished, WfView, WfMsg, LogOk, KeysAt, Finished, PhaseOf;
    HelloSize(k, s.seen);
    FinishedSent(k, s.seen, ClientHandshake, s.hsAt, m);
    var log := s.log - {ResumptionSecret};
    Grows(k, s.seen, m, T(k, s.seen), s.hsAt, log);
    LogAdd(k, s.seen + [m], log, ResumptionSecret);
    assert log[ResumptionSecret := s.transcript] == s.log;
  }

  /** Taking in the next message of the order keeps the server's invariant; the only failure is a
      certificate that does not parse. */
  lemma ServerTakeKeeps(k: Crypto, s: Server, m: Bytes)
    requires k.Lawful() && ServerInv(k, s) && Next(k, s.seen, m) && !s.pc.SFailed? && ClientsTurn(PhaseOf(k, s.seen))
    ensures ServerTook(k, s, ServerTakes(k, s, m), m)
  {
    hide ServerHashes, ServerLogs, LogOk, KeysAt, ServerUsed, ServerTook, T, At;
    match s.pc
    case SWaitHello => ServerTakesHello(k, s, m);
    case SWaitHello2 => ServerTakesHello(k, s, m);
    case SWaitCert => ServerTakesCert(k, s, m);
    case SWaitVerify => ServerTakesVerify(k, s, m);
    case SWaitFinished => ServerTakesFinished(k, s, m);
    case _ =>
  }
}
