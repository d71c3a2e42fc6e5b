/** What each side takes in, in any state and for any bytes; and what a side that has come through the
    handshake has verified, whatever was done to the channels. */
module HandshakeAuth {
  import opened Wire
  import opened Certificate
  import opened Handshake
  import opened HandshakeAgree
  import opened HandshakeRun
  import opened HandshakeJoint
  import opened HandshakeTamper

  // ---- One message ----

  /** m is the message that writes v, except that the reader skips the three length bytes. */
  predicate Carries(m: Bytes, v: CertVerify)
  {
    |m| >= 4 && m[0] == 15 && WriteCertVerify(v).Some? && m[4..] == WriteCertVerify(v).value[4..]
  }

  /** m carries a signature of that side that verifies over the transcript. */
  ghost predicate Signed(k: Crypto, side: Side, transcript: Bytes, m: Bytes)
  {
    exists v: CertVerify :: Carries(m, v) && k.verify(side, transcript, v)
  }

  lemma WrittenVerify(v: CertVerify)
    requires WriteCertVerify(v).Some?
    ensures var w := WriteCertVerify(v).value;
            && |w| >= 4 && w[0] == 15 && w[1..4] == Uint(3, |w| - 4)
            && w[4..] == Uint(2, v.algorithm) + (Uint(2, |v.signature|) + v.signature)
  {
    hide Uint, Pow256;
    var body := Uint(2, v.algorithm) + (Uint(2, |v.signature|) + v.signature);
    assert WriteCertVerify(v).value == [CERTIFICATE_VERIFY] + (Uint(3, |body|) + body);
  }

  /** A message as it comes out of readHandshake is the written one. */
  lemma CarriesFramed(m: Bytes, v: CertVerify)
    requires Carries(m, v) && m[1..4] == Uint(3, |m| - 4)
    ensures WriteCertVerify(v) == Some(m)
  {
    hide Uint, WriteCertVerify;
    WrittenVerify(v);
    var w := WriteCertVerify(v).value;
    assert m == [m[0]] + m[1..4] + m[4..] && w == [w[0]] + w[1..4] + w[4..];
    assert |m| - 4 == |w| - 4;
  }

  lemma ReadCarries(m: Bytes)
    ensures Typ(m, CERTIFICATE_VERIFY) && ReadCertVerify(m).Some? && WriteCertVerify(ReadCertVerify(m).value).Some? ==>
            Carries(m, ReadCertVerify(m).value)
    ensures forall v: CertVerify | Carries(m, v) :: ReadCertVerify(m) == Some(v) && Typ(m, CERTIFICATE_VERIFY)
  {
    hide Uint, UintVal, Pow256, WriteCertVerify;
    if ReadCertVerify(m).Some? && WriteCertVerify(ReadCertVerify(m).value).Some? {
      var v := ReadCertVerify(m).value;
      WrittenVerify(v);
      var s := m[4..];
      UintOfVal(s[..2]);
      ReadPrefixedSound(2, s[2..]);
      assert s[2..] == Uint(2, |v.signature|) + v.signature + [] == Uint(2, |v.signature|) + v.signature;
      assert s == s[..2] + s[2..];
    }
    forall v: CertVerify | Carries(m, v) ensures ReadCertVerify(m) == Some(v) {
      SameBodyReads(m, v);
    }
  }

  lemma SameBodyReads(m: Bytes, v: CertVerify)
    requires Carries(m, v)
    ensures ReadCertVerify(m) == Some(v)
  {
    hide Uint, UintVal, WriteCertVerify;
    CertVerifyReadsBack(v);
    WrittenVerify(v);
  }

  /** The client takes a CertificateVerify in exactly when it carries a signature of the server that verifies
      over its own transcript. */
  lemma ClientVerifyExactly(k: Crypto, c: Client, m: Bytes)
    requires c.pc == CWaitVerify
    ensures !ClientTakes(k, c, m).pc.CFailed? <==> Signed(k, ServerSide, c.transcript, m)
  {
    hide ReadCertVerify, WriteCertVerify;
    ReadCarries(m);
    forall v | Carries(m, v) ensures ReadCertVerify(m) == Some(v) && WriteCertVerify(v).Some? {}
  }

  /** So does the server with the client's. */
  lemma ServerVerifyExactly(k: Crypto, s: Server, m: Bytes)
    requires k.Lawful() && s.pc == SWaitVerify
    ensures !ServerTakes(k, s, m).pc.SFailed? <==> Signed(k, ClientSide, s.transcript, m)
  {
    hide ReadCertVerify, WriteCertVerify, WriteFinished, Finished;
    ReadCarries(m);
    forall v | Carries(m, v) ensures ReadCertVerify(m) == Some(v) && WriteCertVerify(v).Some? {}
    if ReadCertVerify(m).Some? && WriteCertVerify(ReadCertVerify(m).value).Some? {
      var t := s.Use(ClientSignature).Add(m, WriteCertVerify(ReadCertVerify(m).value).value, SWaitFinished);
      FinishedSize(k, ClientHandshake, t.hsAt, t.transcript);
      SentFinished(Finished(k, ClientHandshake, t.hsAt, t.transcript));
    }
  }

  /** A certificate message that parses; with an empty chain or not. */
  predicate Certifies(m: Bytes, empty: bool)
  {
    |m| > 0 && m[0] == 11 && ReadCertMsg(m).Some? && (ReadCertMsg(m).value.cert.chain == [] <==> empty)
  }

  /** What a waiting client goes on with: by message type, and by what the message must prove. */
  ghost predicate ClientReady(k: Crypto, c: Client, m: Bytes)
    requires m != []
  {
    match c.pc
    case CWaitHello(retried) => m[0] == 2 && !(retried && k.isRetry(m))
    case CWaitParameters => m[0] == 8
    case CWaitCert =>
      || (m[0] == 13 && !c.certReq)
      || (Certifies(m, false) && WriteCertMsg(ReadCertMsg(m).value).Some?)
    case CWaitVerify => Signed(k, ServerSide, c.transcript, m)
    case CWaitFinished => WriteFinished(k.mac(k.derive(ServerHandshake, c.hsAt), c.transcript)) == Some(m)
    case _ => true
  }

  lemma ClientCertificateExactly(k: Crypto, c: Client, m: Bytes)
    requires m != [] && c.pc == CWaitCert
    ensures !ClientTakes(k, c, m).pc.CFailed? <==> ClientReady(k, c, m)
  {
    hide ReadCertMsg, WriteCertMsg;
  }

  /** In any state, for any bytes: the client fails exactly on a message it does not wait for, a second retry
      request, a second certificate request, a certificate that does not parse or has no chain, or a
      signature or Finished that is not right. */
  lemma ClientTakesExactly(k: Crypto, c: Client, m: Bytes)
    requires k.Lawful() && m != [] && !c.pc.CFailed?
    ensures !ClientTakes(k, c, m).pc.CFailed? <==> ClientReady(k, c, m)
  {
    hide ClientCertificate, ClientVerify, ClientFinish, Signed, WriteFinished, Finished, MessageHash, ReadCertMsg,
      WriteCertMsg;
    match c.pc
    case CWaitCert => ClientCertificateExactly(k, c, m);
    case CWaitVerify => ClientVerifyExactly(k, c, m);
    case CWaitFinished => FinishedAcceptedExactly(k, c, Start(false).server.(pc := SWaitFinished), m);
    case _ =>
  }

  ghost predicate ServerReady(k: Crypto, s: Server, m: Bytes)
    requires m != []
  {
    match s.pc
    case SWaitHello => m[0] == 1
    case SWaitHello2 => m[0] == 1
    case SWaitCert => Certifies(m, true) || Certifies(m, false)
    case SWaitVerify => Signed(k, ClientSide, s.transcript, m)
    case SWaitFinished => WriteFinished(s.clientFinished) == Some(m)
    case _ => true
  }

  lemma ServerCertificateExactly(k: Crypto, s: Server, m: Bytes)
    requires k.Lawful() && m != [] && s.pc == SWaitCert
    ensures !ServerTakes(k, s, m).pc.SFailed? <==> ServerReady(k, s, m)
  {
    hide ReadCertMsg, WriteFinished, Finished;
    var t := s.Add(m, m, SWaitFinished);
    FinishedSize(k, ClientHandshake, t.hsAt, t.transcript);
    SentFinished(Finished(k, ClientHandshake, t.hsAt, t.transcript));
  }

  /** The same for the server. */
  lemma ServerTakesExactly(k: Crypto, s: Server, m: Bytes)
    requires k.Lawful() && m != [] && !s.pc.SFailed? && |s.clientFinished| < 0x100_0000
    ensures !ServerTakes(k, s, m).pc.SFailed? <==> ServerReady(k, s, m)
  {
    hide ServerCertificate, ServerVerify, ServerFinish, Signed, WriteFinished, ReadCertMsg;
    match s.pc
    case SWaitCert => ServerCertificateExactly(k, s, m);
    case SWaitVerify => ServerVerifyExactly(k, s, m);
    case SWaitFinished => FinishedAcceptedExactly(k, Start(false).client.(pc := CWaitFinished), s, m);
    case _ =>
  }

  // ---- The hash that stands for the first hello ----

  lemma {:induction false} RetriedStart(k: Crypto, view: seq<Bytes>)
    requires |view| >= 2 && k.isRetry(view[1])
    ensures MessageHash(k, view[0]) <= T(k, view)
  {
    hide MessageHash;
    var front, m := view[..|view| - 1], view[|view| - 1];
    if |view| > 2 {
      RetriedStart(k, front);
      assert T(k, view) == T(k, front) + m;
    }
  }

  /** The message_hash message is well formed, and a transcript after a HelloRetryRequest binds the first hello:
      two such transcripts are equal only if the first hellos are, or are a collision of the hash. */
  lemma RetryBindsFirstHello(k: Crypto, view: seq<Bytes>, view': seq<Bytes>)
    requires |view| >= 2 && |view'| >= 2 && k.isRetry(view[1]) && k.isRetry(view'[1]) && T(k, view) == T(k, view')
    requires |k.hash(view[0])| == |k.hash(view'[0])| < 256
    ensures k.hash(view[0]) == k.hash(view'[0])
    ensures MessageHash(k, view[0]) == [254] + Uint(3, |k.hash(view[0])|) + k.hash(view[0])
  {
    hide T, MessageHash, Uint;
    RetriedStart(k, view);
    RetriedStart(k, view');
    var h, h' := k.hash(view[0]), k.hash(view'[0]);
    HashMessage(k, view[0]);
    HashMessage(k, view'[0]);
    SamePrefix([254] + Uint(3, |h|), h, h', T(k, view));
  }

  lemma HashMessage(k: Crypto, hello: Bytes)
    requires |k.hash(hello)| < 256
    ensures MessageHash(k, hello) == [254] + Uint(3, |k.hash(hello)|) + k.hash(hello)
  {
    var n := |k.hash(hello)|;
    assert Uint(3, n) == Uint(2, n / 256) + [n % 256] == Uint(1, 0) + [0] + [n];
    assert Uint(1, 0) == Uint(0, 0) + [0] && Uint(1, n) == Uint(0, 0) + [n];
  }

  lemma SamePrefix(a: Bytes, h: Bytes, h': Bytes, t: Bytes)
    requires a + h <= t && a + h' <= t && |h| == |h'|
    ensures h == h'
  {
    assert h == t[|a|..|a| + |h|] && h' == t[|a|..|a| + |h|];
  }

  // ---- Whole runs ----

  /** Among the messages taken in is a signature that verifies over the transcript logged at u. */
  ghost predicate SignatureSeen(k: Crypto, side: Side, seen: seq<Bytes>, log: map<Use, Bytes>, u: Use)
  {
    u in log && exists m :: m in seen && Signed(k, side, log[u], m)
  }

  /** t is the transcript logged at u followed by a signature that verifies over it. */
  ghost predicate SignedUp(k: Crypto, side: Side, log: map<Use, Bytes>, u: Use, t: Bytes)
  {
    u in log &&
    exists v: CertVerify ::
      WriteCertVerify(v).Some? && k.verify(side, log[u], v) && t == log[u] + WriteCertVerify(v).value
  }

  /** A client past the server's signature either resumes or has verified it, and the server's Finished is over
      the signed transcript and that signature. */
  ghost predicate ClientVerified(k: Crypto, c: Client)
  {
    && (c.pc == CStart ==> c.seen == [])
    && (ServerSignature in c.log ==> SignatureSeen(k, ServerSide, c.seen, c.log, ServerSignature))
    && (c.pc == CWaitFinished && !c.usingPsk ==>
        SignatureSeen(k, ServerSide, c.seen, c.log, ServerSignature) &&
        SignedUp(k, ServerSide, c.log, ServerSignature, c.transcript))
    && (ApplicationKeys in c.log ==> LateClient(c))
    && (LateClient(c) ==> {ServerFinishedMac, ApplicationKeys} <= c.log.Keys)
    && (LateClient(c) && !c.usingPsk ==>
        SignatureSeen(k, ServerSide, c.seen, c.log, ServerSignature) &&
        SignedUp(k, ServerSide, c.log, ServerSignature, c.log[ServerFinishedMac]))
  }

  lemma SeenMore(k: Crypto, side: Side, seen: seq<Bytes>, m: Bytes, log: map<Use, Bytes>, log': map<Use, Bytes>, u: Use)
    requires SignatureSeen(k, side, seen, log, u) && u in log' && log'[u] == log[u]
    ensures SignatureSeen(k, side, seen + [m], log', u)
  {
    hide Signed;
    var x :| x in seen && Signed(k, side, log[u], x);
    assert x in seen + [m];
  }

  lemma NothingSeen(k: Crypto, side: Side, seen: seq<Bytes>, log: map<Use, Bytes>, u: Use)
    requires u !in log
    ensures !SignatureSeen(k, side, seen, log, u)
  {
  }

  lemma SignedSame(k: Crypto, side: Side, log: map<Use, Bytes>, log': map<Use, Bytes>, u: Use, t: Bytes)
    requires SignedUp(k, side, log, u, t) && u in log' && log'[u] == log[u]
    ensures SignedUp(k, side, log', u, t)
  {
    hide WriteCertVerify;
  }

  lemma HelloVerified(k: Crypto, c: Client, retried: bool, m: Bytes)
    requires ClientVerified(k, c) && c.pc == CWaitHello(retried)
    ensures ClientVerified(k, ClientServerHello(k, c, retried, m))
  {
    hide Signed, SignedUp, SignatureSeen, MessageHash;
    var c' := ClientServerHello(k, c, retried, m);
    if ServerSignature in c.log { SeenMore(k, ServerSide, c.seen, m, c.log, c'.log, ServerSignature); }
  }

  lemma CertificateVerified(k: Crypto, c: Client, m: Bytes)
    requires ClientVerified(k, c) && c.pc == CWaitCert
    ensures ClientVerified(k, ClientCertificate(k, c, m))
  {
    hide Signed, SignedUp, SignatureSeen, ReadCertMsg, WriteCertMsg;
    if ServerSignature in c.log { SeenMore(k, ServerSide, c.seen, m, c.log, c.log, ServerSignature); }
  }

  lemma VerifyVerified(k: Crypto, c: Client, m: Bytes)
    requires ClientVerified(k, c) && c.pc == CWaitVerify
    ensures ClientVerified(k, ClientVerify(k, c, m))
  {
    hide ReadCertVerify, WriteCertVerify;
    ReadCarries(m);
    var c' := ClientVerify(k, c, m);
    if !c'.pc.CFailed? {
      var v := ReadCertVerify(m).value;
      assert Carries(m, v) && k.verify(ServerSide, c.transcript, v);
      assert Signed(k, ServerSide, c'.log[ServerSignature], m);
      assert m in c'.seen;
      assert c'.transcript == c'.log[ServerSignature] + WriteCertVerify(v).value;
    }
  }

  lemma FinishVerified(k: Crypto, c: Client, m: Bytes)
    requires ClientVerified(k, c) && c.pc == CWaitFinished
    ensures ClientVerified(k, ClientFinish(k, c, m))
  {
    hide SignedUp, SignatureSeen, WriteFinished, ReadFinished, Finished;
    var c' := ClientFinish(k, c, m);
    if ServerSignature in c.log {
      SeenMore(k, ServerSide, c.seen, m, c.log, c'.log, ServerSignature);
      if !c.usingPsk { SignedSame(k, ServerSide, c.log, c'.log, ServerSignature, c.transcript); }
    } else {
      NothingSeen(k, ServerSide, c.seen, c.log, ServerSignature);
    }
  }

  lemma ClientTakesVerified(k: Crypto, c: Client, m: Bytes)
    requires ClientVerified(k, c)
    ensures ClientVerified(k, ClientTakes(k, c, m))
  {
    hide Signed, SignedUp, SignatureSeen, ClientServerHello, ClientCertificate, ClientVerify, ClientFinish;
    match c.pc
    case CWaitHello(retried) => HelloVerified(k, c, retried, m);
    case CWaitParameters =>
      if ServerSignature in c.log { SeenMore(k, ServerSide, c.seen, m, c.log, c.log, ServerSignature); }
    case CWaitCert => CertificateVerified(k, c, m);
    case CWaitVerify => VerifyVerified(k, c, m);
    case CWaitFinished => FinishVerified(k, c, m);
    case _ =>
  }

  lemma ClientSendsVerified(k: Crypto, c: Client, step: Step)
    requires ClientVerified(k, c) && ClientSends(k, c, step).Some?
    ensures ClientVerified(k, ClientSends(k, c, step).value.0)
  {
    hide SignedUp, SignatureSeen, WriteFinished, Finished, WriteCertMsg, WriteCertVerify;
    var (c', m) := ClientSends(k, c, step).value;
    assert [] + [m] == [m];
    if ServerSignature in c.log {
      SeenMore(k, ServerSide, c.seen, m, c.log, c'.log, ServerSignature);
      if LateClient(c) && !c.usingPsk {
        SignedSame(k, ServerSide, c.log, c'.log, ServerSignature, c.log[ServerFinishedMac]);
      }
    } else {
      NothingSeen(k, ServerSide, c.seen, c.log, ServerSignature);
    }
  }

  /** A server that waits for the client's Finished after it has asked for a certificate has taken in an empty one,
      or has verified the client's signature, and the Finished it waits for is over the signed transcript. */
  ghost predicate ServerVerified(k: Crypto, s: Server)
  {
    && (ClientSignature in s.log ==> SignatureSeen(k, ClientSide, s.seen, s.log, ClientSignature))
    && ((s.pc == SWaitFinished || s.pc == SDone) && s.RequestsCert() ==> ClientShown(k, s))
  }

  ghost predicate ClientShown(k: Crypto, s: Server)
  {
    || (exists m :: m in s.seen && Certifies(m, true))
    || (&& SignatureSeen(k, ClientSide, s.seen, s.log, ClientSignature) && ClientFinishedMac in s.log
        && SignedUp(k, ClientSide, s.log, ClientSignature, s.log[ClientFinishedMac]))
  }

  lemma PrecomputeVerified(k: Crypto, s: Server)
    requires ClientSignature in s.log ==> SignatureSeen(k, ClientSide, s.seen, s.log, ClientSignature)
    requires || !s.RequestsCert() || (exists m :: m in s.seen && Certifies(m, true))
             || (ClientSignature in s.log && SignedUp(k, ClientSide, s.log, ClientSignature, s.transcript))
    ensures ServerVerified(k, Precompute(k, s))
  {
    hide Signed, WriteFinished, Finished, WriteCertVerify, Certifies;
  }

  lemma ServerCertificateVerified(k: Crypto, s: Server, m: Bytes)
    requires ServerVerified(k, s) && s.pc == SWaitCert
    ensures ServerVerified(k, ServerCertificate(k, s, m))
  {
    hide Signed, SignedUp, SignatureSeen, ReadCertMsg, Precompute;
    if ClientSignature in s.log { SeenMore(k, ClientSide, s.seen, m, s.log, s.log, ClientSignature); }
    var t := s.Add(m, m, SWaitFinished);
    assert m in t.seen;
    if Certifies(m, true) { PrecomputeVerified(k, t); }
  }

  lemma ServerVerifyVerified(k: Crypto, s: Server, m: Bytes)
    requires ServerVerified(k, s) && s.pc == SWaitVerify
    ensures ServerVerified(k, ServerVerify(k, s, m))
  {
    hide ReadCertVerify, WriteCertVerify, Precompute;
    ReadCarries(m);
    if Typ(m, CERTIFICATE_VERIFY) && ReadCertVerify(m).Some? && WriteCertVerify(ReadCertVerify(m).value).Some? {
      var v := ReadCertVerify(m).value;
      if k.verify(ClientSide, s.transcript, v) {
        var t := s.Use(ClientSignature).Add(m, WriteCertVerify(v).value, SWaitFinished);
        assert Carries(m, v) && Signed(k, ClientSide, t.log[ClientSignature], m) && m in t.seen;
        assert t.transcript == t.log[ClientSignature] + WriteCertVerify(v).value;
        PrecomputeVerified(k, t);
      }
    }
  }

  lemma ServerSeenMore(k: Crypto, s: Server, s': Server, m: Bytes)
    requires ServerVerified(k, s) && s'.seen == s.seen + [m] && s'.RequestsCert() == s.RequestsCert()
    requires s'.log == s.log && (s'.pc == SWaitFinished || s'.pc == SDone ==> s.pc == SWaitFinished)
    ensures ServerVerified(k, s')
  {
    hide Signed, SignedUp, Certifies;
    if ClientSignature in s.log { SeenMore(k, ClientSide, s.seen, m, s.log, s'.log, ClientSignature); }
    if exists x :: x in s.seen && Certifies(x, true) {
      var x :| x in s.seen && Certifies(x, true);
      assert x in s'.seen;
    }
  }

  lemma ServerTakesVerified(k: Crypto, s: Server, m: Bytes)
    requires ServerVerified(k, s)
    ensures ServerVerified(k, ServerTakes(k, s, m))
  {
    hide Signed, SignedUp, SignatureSeen, Certifies, ServerCertificate, ServerVerify, ReadFinished;
    var s' := ServerTakes(k, s, m);
    match s.pc
    case SWaitCert => ServerCertificateVerified(k, s, m);
    case SWaitVerify => ServerVerifyVerified(k, s, m);
    case _ => if s'.seen == s.seen + [m] { ServerSeenMore(k, s, s', m); }
  }

  lemma ServerSendsVerified(k: Crypto, s: Server, step: Step)
    requires ServerVerified(k, s) && ServerSends(k, s, step).Some?
    ensures ServerVerified(k, ServerSends(k, s, step).value.0)
  {
    hide Signed, SignedUp, SignatureSeen, Certifies, WriteFinished, Finished, WriteCertMsg, WriteCertVerify,
      MessageHash, Precompute;
    var (s', m) := ServerSends(k, s, step).value;
    if s.pc == SSendFinished {
      var t := s.Use(ServerFinishedMac).Add(m, m, SWaitCert).Use(ApplicationKeys);
      if ClientSignature in s.log { SeenMore(k, ClientSide, s.seen, m, s.log, t.log, ClientSignature); }
      if !s.RequestsCert() { PrecomputeVerified(k, t); }
    } else if ClientSignature in s.log {
      SeenMore(k, ClientSide, s.seen, m, s.log, s'.log, ClientSignature);
    }
  }

  lemma {:induction false} TamperedVerified(k: Crypto, clientAuth: bool, events: seq<Event>)
    ensures ClientVerified(k, TamperedRun(k, clientAuth, events).client)
    ensures ServerVerified(k, TamperedRun(k, clientAuth, events).server)
  {
    hide ClientVerified, ServerVerified, ClientTakes, ServerTakes, ClientSends, ServerSends;
    if events == [] {
      StartVerified(k, clientAuth);
    } else {
      var n, e := TamperedRun(k, clientAuth, events[..|events| - 1]), events[|events| - 1];
      TamperedVerified(k, clientAuth, events[..|events| - 1]);
      if e.Honest? {
        if e.step.ClientReads? && n.toClient != [] { ClientTakesVerified(k, n.client, n.toClient[0]); }
        if e.step.ServerReads? && n.toServer != [] { ServerTakesVerified(k, n.server, n.toServer[0]); }
        if ClientSends(k, n.client, e.step).Some? { ClientSendsVerified(k, n.client, e.step); }
        if ServerSends(k, n.server, e.step).Some? { ServerSendsVerified(k, n.server, e.step); }
      }
    }
  }

  lemma StartVerified(k: Crypto, clientAuth: bool)
    ensures ClientVerified(k, Start(clientAuth).client) && ServerVerified(k, Start(clientAuth).server)
  {
  }

  /** In every run, whatever is done to the channels: a client that has derived application keys and does not
      resume has taken in a signature of the server that verifies over the transcript it logged, and the
      server's Finished it accepted covers that transcript and signature. */
  lemma ClientAuthenticates(k: Crypto, clientAuth: bool, events: seq<Event>)
    requires ApplicationKeys in TamperedRun(k, clientAuth, events).client.log
    requires !TamperedRun(k, clientAuth, events).client.usingPsk
    ensures var c := TamperedRun(k, clientAuth, events).client;
      && SignatureSeen(k, ServerSide, c.seen, c.log, ServerSignature) && ServerFinishedMac in c.log
      && SignedUp(k, ServerSide, c.log, ServerSignature, c.log[ServerFinishedMac])
  {
    hide TamperedRun, SignatureSeen, SignedUp;
    TamperedVerified(k, clientAuth, events);
  }

  /** A server that is done and had asked for a certificate has been shown an empty one, or has verified the
      client's signature over the transcript it logged. */
  lemma ServerAuthenticates(k: Crypto, clientAuth: bool, events: seq<Event>)
    requires TamperedRun(k, clientAuth, events).server.pc == SDone
    requires TamperedRun(k, clientAuth, events).server.RequestsCert()
    ensures ClientShown(k, TamperedRun(k, clientAuth, events).server)
  {
    hide TamperedRun, ClientShown;
    TamperedVerified(k, clientAuth, events);
  }
}
