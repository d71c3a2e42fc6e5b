/** Completion: which uses a finished handshake has made, and that every handshake can be finished. */
module HandshakeComplete {
  import opened Wire
  import opened Certificate
  import opened Handshake
  import opened HandshakeAgree
  import opened HandshakeRun
  import opened HandshakeJoint

  // ---- No use is left out ----

  /** Every use whose point the messages have passed is in the log. */
  predicate Made(k: Crypto, view: seq<Bytes>, log: map<Use, Bytes>)
  {
    forall u | At(k, view, u).Some? && UseRank(u) < Rank(PhaseOf(k, view)) :: u in log
  }

  /** The uses an endpoint must have made when it leaves phase p and enters p'. */
  predicate Due(p: Phase, p': Phase, u: Use)
  {
    UseRank(u) == Rank(p) || (p' == ClientFin(true) && u == ApplicationKeys)
  }

  predicate Grown(log: map<Use, Bytes>, log': map<Use, Bytes>) { forall u | u in log :: u in log' }

  lemma MadeNext(k: Crypto, view: seq<Bytes>, m: Bytes, log: map<Use, Bytes>, log': map<Use, Bytes>)
    requires WfView(k, view) && Next(k, view, m) && Made(k, view, log) && Grown(log, log')
    requires forall u | Due(PhaseOf(k, view), Advance(k, PhaseOf(k, view), m), u) :: u in log'
    ensures Made(k, view + [m], log')
  {
    hide T, At, WfView, WfMsg, Advance, PhaseOf;
    WfNext(k, view, m);
    NotBadView(k, view);
    var p, p' := PhaseOf(k, view), PhaseOf(k, view + [m]);
    forall u | At(k, view + [m], u).Some? && UseRank(u) < Rank(p') ensures u in log' {
      if At(k, view, u).Some? {
        AtRank(k, view, u);
      } else {
        assert Marks(p', u);
      }
    }
  }

  lemma ClientTakeMade(k: Crypto, c: Client, m: Bytes)
    requires k.Lawful() && ClientInv(k, c) && Next(k, c.seen, m) && !c.pc.CFailed? && !ClientsTurn(PhaseOf(k, c.seen))
    requires Made(k, c.seen, c.log)
    ensures Made(k, ClientTakes(k, c, m).seen, ClientTakes(k, c, m).log)
  {
    hide T, At, WfView, WfMsg, PhaseOf, ClientHashes, LogOk, KeysAt, Made, MessageHash, WriteFinished, ReadFinished,
      Finished, ReadCertMsg, WriteCertMsg, ReadCertVerify, WriteCertVerify;
    ClientTakeKeeps(k, c, m);
    var c' := ClientTakes(k, c, m);
    if !c'.pc.CFailed? {
      ClientTakeDue(k, c, m);
      MadeNext(k, c.seen, m, c.log, c'.log);
    }
  }

  lemma ClientHelloLogs(k: Crypto, c: Client, retried: bool, m: Bytes)
    ensures Grown(c.log, ClientServerHello(k, c, retried, m).log) && Grown(c.log, ClientCertificate(k, c, m).log)
  {
    hide ReadCertMsg, WriteCertMsg, MessageHash;
  }

  lemma ClientVerifyLogs(k: Crypto, c: Client, m: Bytes)
    ensures Grown(c.log, ClientVerify(k, c, m).log)
    ensures ClientVerify(k, c, m).pc.CFailed? || ServerSignature in ClientVerify(k, c, m).log
  {
    hide ReadCertVerify, WriteCertVerify;
  }

  lemma ClientFinishLogs(k: Crypto, c: Client, m: Bytes)
    ensures Grown(c.log, ClientFinish(k, c, m).log)
    ensures ClientFinish(k, c, m).pc.CFailed? || ServerFinishedMac in ClientFinish(k, c, m).log
    ensures ClientFinish(k, c, m).pc.CFailed? || ApplicationKeys in ClientFinish(k, c, m).log
  {
    hide WriteFinished, ReadFinished, Finished;
  }

  lemma ClientTakeDue(k: Crypto, c: Client, m: Bytes)
    requires ClientPhase(k, c) && ClientUsed(c) && Next(k, c.seen, m) && !ClientsTurn(PhaseOf(k, c.seen))
    requires !c.pc.CFailed? && !ClientTakes(k, c, m).pc.CFailed? && PhaseOf(k, c.seen) != Bad
    ensures Grown(c.log, ClientTakes(k, c, m).log)
    ensures forall u | Due(PhaseOf(k, c.seen), Advance(k, PhaseOf(k, c.seen), m), u) :: u in ClientTakes(k, c, m).log
  {
    hide T, At, WfMsg, PhaseOf, EmptyChain, ClientServerHello, ClientCertificate, ClientVerify, ClientFinish;
    Begins(k);
    ClientHelloLogs(k, c, c.pc == CWaitHello(true), m);
    ClientVerifyLogs(k, c, m);
    ClientFinishLogs(k, c, m);
  }

  lemma ClientSendMade(k: Crypto, c: Client, step: Step)
    requires ClientInv(k, c) && ClientSends(k, c, step).Some? && Made(k, c.seen, c.log)
    ensures var (c', _) := ClientSends(k, c, step).value; Made(k, c'.seen, c'.log)
  {
    hide T, At, WfView, WfMsg, PhaseOf, ClientHashes, LogOk, KeysAt, Made, ClientSends, ClientUsed, ClientPhase,
      Advance, ClientsTurn;
    ClientSendKeeps(k, c, step);
    var (c', m) := ClientSends(k, c, step).value;
    ClientView(k, c');
    LastIsNext(k, c.seen, m);
    ClientSendDue(k, c, step);
    MadeNext(k, c.seen, m, c.log, c'.log);
  }

  lemma ClientSendDue(k: Crypto, c: Client, step: Step)
    requires ClientPhase(k, c) && ClientUsed(c) && ClientSends(k, c, step).Some?
    ensures var (c', m) := ClientSends(k, c, step).value;
            && Grown(c.log, c'.log)
            && forall u | Due(PhaseOf(k, c.seen), Advance(k, PhaseOf(k, c.seen), m), u) :: u in c'.log
  {
    hide T, At, PhaseOf, WriteFinished, Finished, WriteCertMsg, WriteCertVerify, EmptyChain;
    Begins(k);
  }

  /** What a well-formed view ends with was the next message of the order. */
  lemma LastIsNext(k: Crypto, view: seq<Bytes>, m: Bytes)
    requires WfView(k, view + [m])
    ensures WfView(k, view) && Next(k, view, m)
  {
    hide T, At, WfMsg, Advance;
    assert (view + [m])[..|view|] == view;
  }

  lemma ServerTakeMade(k: Crypto, s: Server, m: Bytes)
    requires k.Lawful() && ServerInv(k, s) && Next(k, s.seen, m) && !s.pc.SFailed? && ClientsTurn(PhaseOf(k, s.seen))
    requires Made(k, s.seen, s.log)
    ensures Made(k, ServerTakes(k, s, m).seen, ServerTakes(k, s, m).log)
  {
    hide T, At, WfView, WfMsg, PhaseOf, ServerHashes, ServerLogs, LogOk, KeysAt, Made, ServerTakes, ServerUsed,
      ServerPhase;
    ServerTakeKeeps(k, s, m);
    var s' := ServerTakes(k, s, m);
    if !s'.pc.SFailed? {
      ServerTakeDue(k, s, m);
      MadeNext(k, s.seen, m, s.log, s'.log);
    }
  }

  lemma ServerTakeLogs(k: Crypto, s: Server, m: Bytes)
    ensures Grown(s.log, ServerCertificate(k, s, m).log) && Grown(s.log, ServerVerify(k, s, m).log)
    ensures Grown(s.log, ServerFinish(s, m).log)
    ensures ServerVerify(k, s, m).pc.SFailed? || ClientSignature in ServerVerify(k, s, m).log
  {
    hide WriteFinished, ReadFinished, Finished, ReadCertMsg, ReadCertVerify, WriteCertVerify;
  }

  lemma ServerTakeGrown(k: Crypto, s: Server, m: Bytes)
    ensures Grown(s.log, ServerTakes(k, s, m).log)
    ensures s.pc == SWaitVerify && !ServerTakes(k, s, m).pc.SFailed? ==> ClientSignature in ServerTakes(k, s, m).log
  {
    hide ServerCertificate, ServerVerify, ServerFinish;
    ServerTakeLogs(k, s, m);
  }

  lemma ServerTakeDue(k: Crypto, s: Server, m: Bytes)
    requires ServerPhase(k, s) && ServerUsed(s) && Next(k, s.seen, m) && ClientsTurn(PhaseOf(k, s.seen))
    requires !s.pc.SFailed? && !ServerTakes(k, s, m).pc.SFailed?
    ensures Grown(s.log, ServerTakes(k, s, m).log)
    ensures forall u | Due(PhaseOf(k, s.seen), Advance(k, PhaseOf(k, s.seen), m), u) :: u in ServerTakes(k, s, m).log
  {
    hide T, At, WfMsg, PhaseOf, EmptyChain, ServerTakes;
    Begins(k);
    ServerTakeGrown(k, s, m);
  }

  lemma ServerSendMade(k: Crypto, s: Server, step: Step)
    requires k.Lawful() && ServerInv(k, s) && ServerSends(k, s, step).Some? && Made(k, s.seen, s.log)
    ensures var (s', _) := ServerSends(k, s, step).value; Made(k, s'.seen, s'.log)
  {
    hide T, At, WfView, WfMsg, PhaseOf, ServerHashes, ServerLogs, LogOk, KeysAt, Made, ServerSends, ServerUsed,
      ServerPhase, Advance, ClientsTurn;
    ServerSendKeeps(k, s, step);
    var (s', m) := ServerSends(k, s, step).value;
    ServerView(k, s');
    LastIsNext(k, s.seen, m);
    ServerSendDue(k, s, step);
    MadeNext(k, s.seen, m, s.log, s'.log);
  }

  lemma ServerSendDue(k: Crypto, s: Server, step: Step)
    requires ServerPhase(k, s) && ServerUsed(s) && ServerSends(k, s, step).Some?
    requires Advance(k, PhaseOf(k, s.seen), ServerSends(k, s, step).value.1) != Bad
    ensures var (s', m) := ServerSends(k, s, step).value;
            && Grown(s.log, s'.log)
            && forall u | Due(PhaseOf(k, s.seen), Advance(k, PhaseOf(k, s.seen), m), u) :: u in s'.log
  {
    hide T, At, PhaseOf, WriteFinished, Finished, WriteCertMsg, WriteCertVerify, MessageHash, EmptyChain;
  }

  ghost predicate AllMade(k: Crypto, n: Net)
  {
    NetInv(k, n) && Made(k, n.client.seen, n.client.log) && Made(k, n.server.seen, n.server.log)
  }

  lemma StepMade(k: Crypto, n: Net, step: Step)
    requires k.Lawful() && AllMade(k, n)
    ensures Made(k, Apply(k, n, step).client.seen, Apply(k, n, step).client.log)
    ensures Made(k, Apply(k, n, step).server.seen, Apply(k, n, step).server.log)
  {
    hide Made, ClientTakes, ServerTakes, ClientSends, ServerSends, InFlight, PhaseOf, WfView, Next, ClientsTurn,
      ClientInv, ServerInv, Refused;
    if step.ClientReads? && n.toClient != [] {
      ServerView(k, n.server);
      Taken(k, n.server.seen, n.client.seen, n.toClient, false);
      if n.client.pc.CFailed? {
        FailedTakesNothing(k, n.client, n.toClient[0]);
      } else {
        ClientTakeMade(k, n.client, n.toClient[0]);
      }
    } else if step.ServerReads? && n.toServer != [] {
      ClientView(k, n.client);
      Taken(k, n.client.seen, n.server.seen, n.toServer, true);
      if n.server.pc.SFailed? {
        FailedServerTakesNothing(k, n.server, n.toServer[0]);
      } else {
        ServerTakeMade(k, n.server, n.toServer[0]);
      }
    } else {
      if ClientSends(k, n.client, step).Some? { ClientSendMade(k, n.client, step); }
      if ServerSends(k, n.server, step).Some? { ServerSendMade(k, n.server, step); }
    }
  }

  lemma {:induction false} RunMade(k: Crypto, clientAuth: bool, steps: seq<Step>)
    requires k.Lawful()
    ensures AllMade(k, Run(k, Start(clientAuth), steps))
  {
    hide Apply, NetInv, Made;
    RunInv(k, clientAuth, steps);
    if steps == [] {
      NothingMade(k);
    } else {
      RunMade(k, clientAuth, steps[..|steps| - 1]);
      StepMade(k, Run(k, Start(clientAuth), steps[..|steps| - 1]), steps[|steps| - 1]);
    }
  }

  lemma NothingMade(k: Crypto)
    ensures Made(k, [], map[])
  {
  }

  /** When both sides are done they have made the same uses of the same transcripts, and exactly those that
      belong to the messages they exchanged. */
  lemma CompletionLogsEqual(k: Crypto, clientAuth: bool, steps: seq<Step>)
    requires k.Lawful() && Run(k, Start(clientAuth), steps).client.pc == CDone
    requires Run(k, Start(clientAuth), steps).server.pc == SDone
    ensures var n := Run(k, Start(clientAuth), steps);
      n.client.log == n.server.log && forall u :: u in n.client.log <==> At(k, n.client.seen, u).Some?
  {
    hide Run, KeysAt, At, T, Refused, WfView, PhaseOf, ClientHashes, ServerHashes, InFlight;
    var n := Run(k, Start(clientAuth), steps);
    RunMade(k, clientAuth, steps);
    CompletionAgrees(k, clientAuth, steps);
    forall u ensures u in n.client.log <==> At(k, n.client.seen, u).Some?
             ensures u in n.server.log <==> At(k, n.client.seen, u).Some?
    {
      assert UseRank(u) == 12 ==> u == ResumptionSecret;
    }
  }

  // ---- Every handshake can be finished ----

  /** What the two sides would send next, and how they sign. */
  datatype Choices = Choices(ch: Bytes, retry: Option<Bytes>, sh: Bytes, ee: Bytes, cr: Bytes, serverCert: CertMsg,
                             clientCert: CertMsg, sign: (Side, Bytes) -> CertVerify)
  {
    ghost predicate Usable(k: Crypto)
    {
      && Typ(ch, CLIENT_HELLO) && (retry.Some? ==> Typ(retry.value, SERVER_HELLO) && k.isRetry(retry.value))
      && Typ(sh, SERVER_HELLO) && !k.isRetry(sh) && Typ(ee, ENCRYPTED_EXTENSIONS) && Typ(cr, CERTIFICATE_REQUEST)
    }

    ghost predicate CanSign(k: Crypto)
    {
      && WriteCertMsg(serverCert).Some? && CertOk(Stripped(serverCert)) && serverCert.cert.chain != []
      && WriteCertMsg(clientCert).Some? && CertOk(Stripped(clientCert))
      && forall side, t: Bytes :: k.verify(side, t, sign(side, t)) && WriteCertVerify(sign(side, t)).Some?
    }

    function ServerStep(s: Server): (step: Step)
    {
      match s.pc
      case SHaveHello(retried) => if retry.Some? && !retried then Retry(retry.value) else Accept(sh)
      case SSendParameters => Parameters(ee)
      case SSendRequest => Request(cr)
      case SSendCert => ServerCert(serverCert)
      case SSendVerify => ServerSign(sign(ServerSide, s.transcript))
      case _ => ServerFinishes
    }

    /** Read what there is; when both queues are empty, whoever may send does. */
    function NextStep(n: Net): (step: Step)
    {
      if n.toClient != [] then ClientReads
      else if n.toServer != [] then ServerReads
      else match n.client.pc
        case CStart => SendHello(ch)
        case CSendHello2 => SendHello(ch)
        case CSendCert => ClientCert(clientCert)
        case CSendVerify => ClientSign(sign(ClientSide, n.client.transcript))
        case CSendFinished => ClientFinishes
        case _ => ServerStep(n.server)
    }
  }

  /** Neither side has failed, and nothing under way will make one fail. */
  ghost predicate Healthy(k: Crypto, n: Net)
  {
    && NetInv(k, n) && !n.client.pc.CFailed? && !n.server.pc.SFailed?
    && forall m | m in n.toClient + n.toServer :: !Refused(m)
  }

  predicate Done(n: Net) { n.client.pc == CDone && n.server.pc == SDone }

  function Progress(k: Crypto, n: Net): (r: nat) { Rank(PhaseOf(k, n.client.seen)) + Rank(PhaseOf(k, n.server.seen)) }

  /** Both views of n are prefixes of those of n', and one of them has grown. */
  predicate Advanced(k: Crypto, n: Net, n': Net)
  {
    && n.client.seen <= n'.client.seen && n.server.seen <= n'.server.seen
    && n'.server.clientAuth == n.server.clientAuth && Progress(k, n) < Progress(k, n')
  }

  lemma ViewGrows(k: Crypto, view: seq<Bytes>, m: Bytes)
    requires WfView(k, view + [m])
    ensures Rank(PhaseOf(k, view)) < Rank(PhaseOf(k, view + [m])) <= 12
  {
    hide T, At, WfMsg, Advance, Marks;
    LastIsNext(k, view, m);
    assert (view + [m])[..|view|] == view;
    AdvanceRank(k, PhaseOf(k, view), m, HandshakeKeys);
  }

  lemma ClientReadAdvances(k: Crypto, n: Net)
    requires k.Lawful() && Healthy(k, n) && n.toClient != []
    ensures Healthy(k, Apply(k, n, ClientReads)) && Advanced(k, n, Apply(k, n, ClientReads))
    ensures Apply(k, n, ClientReads).server == n.server
  {
    hide ClientTakes, WfView, Next, ClientsTurn, InFlight, PhaseOf, ClientInv, ServerInv, Refused, Rank;
    var m := n.toClient[0];
    assert m in n.toClient + n.toServer;
    ServerView(k, n.server);
    Taken(k, n.server.seen, n.client.seen, n.toClient, false);
    ClientTakeKeeps(k, n.client, m);
    ClientReadKeeps(k, n);
    ClientView(k, ClientTakes(k, n.client, m));
    ViewGrows(k, n.client.seen, m);
  }

  lemma ServerReadAdvances(k: Crypto, n: Net)
    requires k.Lawful() && Healthy(k, n) && n.toServer != []
    ensures Healthy(k, Apply(k, n, ServerReads)) && Advanced(k, n, Apply(k, n, ServerReads))
    ensures Apply(k, n, ServerReads).client == n.client
  {
    hide ServerTakes, WfView, Next, ClientsTurn, InFlight, PhaseOf, ClientInv, ServerInv, Refused, Rank;
    var m := n.toServer[0];
    assert m in n.toClient + n.toServer;
    ClientView(k, n.client);
    Taken(k, n.client.seen, n.server.seen, n.toServer, true);
    ServerTakeKeeps(k, n.server, m);
    ServerReadKeeps(k, n);
    ServerView(k, ServerTakes(k, n.server, m));
    ViewGrows(k, n.server.seen, m);
    SameAuth(k, n.server, m);
  }

  lemma SameAuth(k: Crypto, s: Server, m: Bytes)
    ensures ServerTakes(k, s, m).clientAuth == s.clientAuth
  {
    hide WriteFinished, ReadFinished, Finished, ReadCertMsg, ReadCertVerify, WriteCertVerify;
  }

  /** With nothing under way, the two sides have seen the same messages. */
  lemma QuietViews(k: Crypto, n: Net)
    requires Linked(k, n) && n.toClient == [] && n.toServer == []
    ensures n.client.seen == n.server.seen
  {
  }

  lemma ClientCanSend(k: Crypto, x: Choices, n: Net)
    requires x.CanSign(k) || (n.client.pc != CSendCert && n.client.pc != CSendVerify)
    requires k.Lawful() && x.Usable(k) && ClientPhase(k, n.client) && !n.client.pc.CFailed?
    requires n.toClient == [] && n.toServer == [] && ClientsTurn(PhaseOf(k, n.client.seen))
    ensures ClientSends(k, n.client, x.NextStep(n)).Some?
    ensures !Refused(ClientSends(k, n.client, x.NextStep(n)).value.1)
  {
    hide PhaseOf, WriteFinished, ReadFinished, Finished, WriteCertMsg, ReadCertMsg, WriteCertVerify, ReadCertVerify,
      CertOk, Stripped;
    FinishedSize(k, ClientHandshake, n.client.hsAt, n.client.transcript);
    SentFinished(Finished(k, ClientHandshake, n.client.hsAt, n.client.transcript));
    if x.CanSign(k) {
      SentCertificate(x.clientCert);
      SentVerify(x.sign(ClientSide, n.client.transcript));
    }
  }

  lemma ServerCanSend(k: Crypto, x: Choices, s: Server)
    requires x.CanSign(k) || (s.pc != SSendCert && s.pc != SSendVerify)
    requires k.Lawful() && x.Usable(k) && ServerPhase(k, s) && !s.pc.SFailed?
    requires !ClientsTurn(PhaseOf(k, s.seen)) && PhaseOf(k, s.seen) != Complete && PhaseOf(k, s.seen) != Bad
    ensures ServerSends(k, s, x.ServerStep(s)).Some? && !Refused(ServerSends(k, s, x.ServerStep(s)).value.1)
    ensures ServerSends(k, s, x.ServerStep(s)).value.0.clientAuth == s.clientAuth
  {
    hide PhaseOf, WriteFinished, ReadFinished, Finished, WriteCertMsg, ReadCertMsg, WriteCertVerify, ReadCertVerify,
      CertOk, Stripped, MessageHash;
    Begins(k);
    FinishedSize(k, ServerHandshake, s.hsAt, s.transcript);
    SentFinished(Finished(k, ServerHandshake, s.hsAt, s.transcript));
    if x.CanSign(k) {
      SentCertificate(x.serverCert);
      SentVerify(x.sign(ServerSide, s.transcript));
    }
  }

  lemma WhoSends(k: Crypto, x: Choices, n: Net)
    requires ClientPhase(k, n.client) && !n.client.pc.CFailed? && n.toClient == [] && n.toServer == []
    requires !ClientsTurn(PhaseOf(k, n.client.seen))
    ensures x.NextStep(n) == x.ServerStep(n.server) && ClientSends(k, n.client, x.NextStep(n)) == None
  {
    hide PhaseOf;
    Begins(k);
  }

  /** A server that resumes, or has not decided yet. */
  predicate MayResume(s: Server)
  {
    match s.pc
    case SWaitHello => true
    case SHaveHello(_) => true
    case SWaitHello2 => true
    case SSendParameters => s.usingPsk
    case SSendFinished => s.usingPsk
    case SWaitFinished => s.usingPsk
    case SDone => s.usingPsk
    case _ => false
  }

  /** A handshake in which no one will have to sign. */
  predicate Resuming(k: Crypto, x: Choices, n: Net) { k.usesPsk(x.sh) && MayResume(n.server) }

  ghost predicate Sufficient(k: Crypto, x: Choices, n: Net) { x.CanSign(k) || Resuming(k, x, n) }

  /** With nothing under way, a client that is to send a certificate or sign faces a server waiting for it. */
  lemma SignerFaces(k: Crypto, x: Choices, n: Net)
    requires ClientPhase(k, n.client) && ServerPhase(k, n.server) && n.client.seen == n.server.seen
    requires Resuming(k, x, n)
    ensures n.client.pc != CSendCert && n.client.pc != CSendVerify
  {
    hide PhaseOf;
    Begins(k);
  }

  lemma SendAdvances(k: Crypto, x: Choices, n: Net)
    requires k.Lawful() && x.Usable(k) && Sufficient(k, x, n) && Healthy(k, n) && n.toClient == [] && n.toServer == []
    requires PhaseOf(k, n.client.seen) != Complete
    ensures var n' := Apply(k, n, x.NextStep(n)); Healthy(k, n') && Advanced(k, n, n')
  {
    hide ClientSends, ServerSends, InFlight, PhaseOf, Refused, ClientsTurn, Rank, WfView, LogOk, KeysAt, ClientHashes,
      ServerHashes, ServerLogs, ClientUsed, ServerUsed, ClientPhase, ServerPhase, Choices.NextStep, Choices.Usable,
      Choices.CanSign, Choices.ServerStep;
    QuietViews(k, n);
    var step := x.NextStep(n);
    NextSends(k, x, n);
    SendKeeps(k, n, step);
    if ClientsTurn(PhaseOf(k, n.client.seen)) {
      if !x.CanSign(k) { SignerFaces(k, x, n); }
      ClientCanSend(k, x, n);
      ClientSendKeeps(k, n.client, step);
      var (c, m) := ClientSends(k, n.client, step).value;
      ClientView(k, c);
      ViewGrows(k, n.client.seen, m);
    } else {
      WhoSends(k, x, n);
      NotBadView(k, n.server.seen);
      ServerCanSend(k, x, n.server);
      ServerSendKeeps(k, n.server, step);
      var (s, m) := ServerSends(k, n.server, step).value;
      ServerView(k, s);
      ViewGrows(k, n.server.seen, m);
    }
  }

  lemma NextSends(k: Crypto, x: Choices, n: Net)
    requires n.toClient == [] && n.toServer == []
    ensures !x.NextStep(n).ClientReads? && !x.NextStep(n).ServerReads?
  {
  }

  lemma TakeMayResume(k: Crypto, s: Server, m: Bytes)
    requires MayResume(s) && !ServerTakes(k, s, m).pc.SFailed?
    ensures MayResume(ServerTakes(k, s, m))
  {
    hide ReadFinished, ServerCertificate, ServerVerify;
  }

  lemma SendMayResume(k: Crypto, s: Server, step: Step)
    requires MayResume(s) && ServerSends(k, s, step).Some? && (step.Accept? ==> k.usesPsk(step.m))
    requires !ServerSends(k, s, step).value.0.pc.SFailed?
    ensures MayResume(ServerSends(k, s, step).value.0)
  {
    hide WriteFinished, Finished, MessageHash, WriteCertMsg, WriteCertVerify;
  }

  lemma NextAccepts(x: Choices, n: Net)
    ensures x.NextStep(n).Accept? ==> x.NextStep(n).m == x.sh
  {
  }

  lemma StillResuming(k: Crypto, x: Choices, n: Net)
    requires Resuming(k, x, n) && !Apply(k, n, x.NextStep(n)).server.pc.SFailed?
    ensures Resuming(k, x, Apply(k, n, x.NextStep(n)))
  {
    hide MayResume, ClientTakes, ServerTakes, ClientSends, ServerSends, Choices.NextStep;
    var step := x.NextStep(n);
    NextAccepts(x, n);
    if step.ServerReads? && n.toServer != [] { TakeMayResume(k, n.server, n.toServer[0]); }
    if !step.ClientReads? && !step.ServerReads? && ClientSends(k, n.client, step).None? {
      if ServerSends(k, n.server, step).Some? { SendMayResume(k, n.server, step); }
    }
  }

  lemma StepAdvances(k: Crypto, x: Choices, n: Net)
    requires k.Lawful() && x.Usable(k) && Sufficient(k, x, n) && Healthy(k, n) && !Done(n)
    ensures var n' := Apply(k, n, x.NextStep(n)); Healthy(k, n') && Advanced(k, n, n') && Sufficient(k, x, n')
  {
    hide Apply, PhaseOf, ClientHashes, ServerHashes, LogOk, KeysAt, ServerLogs, ClientUsed, ServerUsed, Advanced,
      WfView, InFlight, Refused, Choices.Usable, Choices.CanSign, ClientsTurn;
    if n.toClient != [] {
      ClientReadAdvances(k, n);
    } else if n.toServer != [] {
      ServerReadAdvances(k, n);
    } else {
      QuietViews(k, n);
      Begins(k);
      SendAdvances(k, x, n);
    }
    if !x.CanSign(k) { StillResuming(k, x, n); }
  }

  lemma ProgressBound(k: Crypto, n: Net)
    requires NetInv(k, n)
    ensures Progress(k, n) <= 24
  {
    hide PhaseOf, WfView, Rank, ClientInv, ServerInv, Linked, Refused;
    ClientView(k, n.client);
    ServerView(k, n.server);
    RankBound(k, n.client.seen);
    RankBound(k, n.server.seen);
  }

  lemma RankBound(k: Crypto, view: seq<Bytes>)
    requires WfView(k, view)
    ensures Rank(PhaseOf(k, view)) <= 12
  {
    hide PhaseOf, WfView;
    NotBadView(k, view);
  }

  lemma {:induction false} RunAppend(k: Crypto, n: Net, xs: seq<Step>, ys: seq<Step>)
    ensures Run(k, n, xs + ys) == Run(k, Run(k, n, xs), ys)
    decreases |ys|
  {
    hide Apply;
    if ys == [] {
      assert xs + ys == xs;
    } else {
      assert (xs + ys)[..|xs + ys| - 1] == xs + ys[..|ys| - 1];
      RunAppend(k, n, xs, ys[..|ys| - 1]);
    }
  }

  lemma RunOne(k: Crypto, n: Net, step: Step)
    ensures Run(k, n, [step]) == Apply(k, n, step)
  {
    hide Apply;
    assert [step][..0] == [];
    assert Run(k, n, []) == n;
  }

  lemma {:induction false} CompletesFrom(k: Crypto, x: Choices, n: Net) returns (more: seq<Step>)
    requires k.Lawful() && x.Usable(k) && Sufficient(k, x, n) && Healthy(k, n)
    ensures var n' := Run(k, n, more); Done(n') && n.client.seen <= n'.client.seen && n.server.seen <= n'.server.seen
    decreases 24 - Progress(k, n)
  {
    hide Apply, Run, Choices.Usable, Choices.CanSign, Choices.NextStep, Progress;
    if Done(n) {
      more := [];
      RunNone(k, n);
    } else {
      var step := x.NextStep(n);
      StepAdvances(k, x, n);
      ProgressBound(k, Apply(k, n, step));
      var rest := CompletesFrom(k, x, Apply(k, n, step));
      more := [step] + rest;
      RunAppend(k, n, [step], rest);
      RunOne(k, n, step);
    }
  }

  lemma RunNone(k: Crypto, n: Net)
    ensures Run(k, n, []) == n
  {
  }

  /** From every state the two sides can reach in which no one has failed and no refused certificate is under
      way, there are steps that finish the handshake on both sides, if those who have to sign can. */
  lemma EveryRunCanComplete(k: Crypto, clientAuth: bool, x: Choices, steps: seq<Step>) returns (more: seq<Step>)
    requires k.Lawful() && x.Usable(k) && Sufficient(k, x, Run(k, Start(clientAuth), steps))
    requires var n := Run(k, Start(clientAuth), steps);
      !n.client.pc.CFailed? && !n.server.pc.SFailed? && forall m | m in n.toClient + n.toServer :: !Refused(m)
    ensures Done(Run(k, Start(clientAuth), steps + more))
  {
    hide Run, Choices.Usable, Choices.CanSign, NetInv, Refused;
    RunInv(k, clientAuth, steps);
    more := CompletesFrom(k, x, Run(k, Start(clientAuth), steps));
    RunAppend(k, Start(clientAuth), steps, more);
  }

  /** A resumption runs to its end, with or without a HelloRetryRequest, and needs no certificate. */
  lemma ResumptionCompletes(k: Crypto, clientAuth: bool, x: Choices) returns (steps: seq<Step>)
    requires k.Lawful() && x.Usable(k) && k.usesPsk(x.sh)
    ensures Done(Run(k, Start(clientAuth), steps))
  {
    hide Choices.Usable, Choices.CanSign;
    RunNone(k, Start(clientAuth));
    var more := EveryRunCanComplete(k, clientAuth, x, []);
    assert [] + more == more;
    steps := more;
  }

  // ---- A full handshake ----

  /** The uses every view in this phase has passed. */
  function PassedUses(p: Phase): (us: set<Use>)
  {
    match p
    case Params(_) => {HandshakeKeys}
    case SCert(_) => {HandshakeKeys}
    case SVerify(_) => {HandshakeKeys, ServerSignature}
    case ServerFin(requested) =>
      {HandshakeKeys, ServerFinishedMac} + if requested then {ServerSignature} else {}
    case CCert => {HandshakeKeys, ServerSignature, ServerFinishedMac, ApplicationKeys}
    case CVerify => {HandshakeKeys, ServerSignature, ServerFinishedMac, ApplicationKeys, ClientSignature}
    case _ => {}
  }

  lemma {:induction false} UsesPassed(k: Crypto, view: seq<Bytes>)
    requires WfView(k, view)
    ensures forall u | u in PassedUses(PhaseOf(k, view)) :: At(k, view, u).Some?
  {
    hide T, At, WfMsg, EmptyChain;
    if view != [] {
      var front, m := view[..|view| - 1], view[|view| - 1];
      assert view == front + [m];
      UsesPassed(k, front);
      forall u | u in PassedUses(PhaseOf(k, view)) ensures At(k, view, u).Some? {
        AtNext(k, front, m, u);
      }
    }
  }

  predicate Accepted(s: Server)
  {
    s.pc == SSendParameters || s.pc == SSendRequest || s.pc == SSendCert || s.pc == SSendVerify || s.pc == SSendFinished
    || s.pc == SWaitCert
  }

  predicate Retried(k: Crypto, s: Server) { |s.seen| >= 2 && k.isRetry(s.seen[1]) }

  /** On the way to the client's signature: a retried handshake without pre-shared key, by a server that
      asks for a certificate. */
  predicate OnTheWay(k: Crypto, n: Net)
  {
    && n.server.clientAuth
    && n.client.pc != CSendVerify && n.client.pc != CSendFinished && n.client.pc != CDone
    && (n.server.pc == SWaitHello || n.server.pc == SHaveHello(false)
        || (Retried(k, n.server) && (n.server.pc == SWaitHello2 || n.server.pc == SHaveHello(true)))
        || (Retried(k, n.server) && Accepted(n.server) && !n.server.usingPsk))
  }

  predicate AtSignature(k: Crypto, n: Net) { n.client.pc == CSendVerify && Retried(k, n.server) }

  /** A client that reads its way to its own Finished has been sent everything the server had to send. */
  lemma ReaderNotPast(k: Crypto, n: Net)
    requires Linked(k, n) && ClientPhase(k, n.client) && n.client.pc == CSendFinished && n.toServer == []
    ensures PhaseOf(k, n.server.seen).ClientFin?
  {
    hide PhaseOf;
    var c, s := n.client.seen, n.server.seen;
    assert c <= s ==> s[..|c|] == c;
    assert |c| == |s| && (c <= s || s <= c) ==> c == s;
  }

  lemma {:induction false} RankPrefix(k: Crypto, view: seq<Bytes>, i: nat)
    requires WfView(k, view) && i < |view|
    ensures Rank(PhaseOf(k, view[..i])) < Rank(PhaseOf(k, view))
    decreases |view|
  {
    hide Rank, WfMsg, Advance, Marks;
    var front, m := view[..|view| - 1], view[|view| - 1];
    assert view == front + [m];
    ViewGrows(k, front, m);
    if i == |front| {
      assert view[..i] == front;
    } else {
      assert view[..i] == front[..i];
      RankPrefix(k, front, i);
    }
  }

  lemma WayRead(k: Crypto, n: Net)
    requires k.Lawful() && Healthy(k, n) && OnTheWay(k, n) && n.toClient != []
    ensures OnTheWay(k, Apply(k, n, ClientReads))
  {
    hide ClientTakes, PhaseOf, Refused, WfView, LogOk, KeysAt, ClientHashes, ServerHashes, ServerLogs, ClientUsed,
      ServerUsed, InFlight, Progress;
    var n' := Apply(k, n, ClientReads);
    ClientReadAdvances(k, n);
    Begins(k);
    ClientReadsTo(k, n.client, n.toClient[0]);
    if n'.client.pc == CSendFinished { ReaderNotPast(k, n'); }
  }

  lemma ClientReadsTo(k: Crypto, c: Client, m: Bytes)
    requires c.pc != CSendVerify && c.pc != CDone
    ensures ClientTakes(k, c, m).pc != CSendVerify && ClientTakes(k, c, m).pc != CDone
  {
    hide WriteFinished, ReadFinished, Finished, ReadCertMsg, WriteCertMsg, ReadCertVerify, WriteCertVerify,
      MessageHash;
  }

  /** A client that has sent its certificate is at its signature or past it. */
  lemma PastCertificate(k: Crypto, c: Client, view: seq<Bytes>)
    requires ClientInv(k, c) && !c.pc.CFailed? && view <= c.seen && view != c.seen && PhaseOf(k, view) == CCert
    ensures c.pc == CSendVerify || c.pc == CSendFinished || c.pc == CDone
  {
    hide PhaseOf, WfView, LogOk, KeysAt, ClientHashes, ClientUsed;
    Begins(k);
    assert c.seen[..|view|] == view;
    RankPrefix(k, c.seen, |view|);
  }

  lemma ServerReadsTo(k: Crypto, s: Server, m: Bytes)
    requires ServerPhase(k, s) && ClientsTurn(PhaseOf(k, s.seen)) && !ServerTakes(k, s, m).pc.SFailed?
    requires s.pc == SWaitHello || s.pc == SHaveHello(false) || s.pc == SWaitHello2 || s.pc == SHaveHello(true) ||
             Accepted(s)
    ensures s.pc == SWaitCert || ServerTakes(k, s, m).pc == SHaveHello(s.pc == SWaitHello2)
  {
    hide PhaseOf, ServerCertificate;
    Begins(k);
  }

  lemma WayServerReads(k: Crypto, n: Net)
    requires k.Lawful() && Healthy(k, n) && OnTheWay(k, n) && n.toServer != []
    ensures OnTheWay(k, Apply(k, n, ServerReads))
  {
    hide PhaseOf, Refused, WfView, LogOk, KeysAt, ClientHashes, ServerHashes, ServerLogs, ClientUsed, ServerUsed,
      Progress, ServerTakes, ClientInv, Next, ClientsTurn;
    ServerReadAdvances(k, n);
    ClientView(k, n.client);
    Taken(k, n.client.seen, n.server.seen, n.toServer, true);
    ServerReadsTo(k, n.server, n.toServer[0]);
    if n.server.pc == SWaitCert { PastCertificate(k, n.client, n.server.seen); }
  }

  lemma WayClientSends(k: Crypto, x: Choices, n: Net)
    requires x.Usable(k) && x.CanSign(k) && ClientPhase(k, n.client) && OnTheWay(k, n)
    requires n.toClient == [] && n.toServer == []
    requires x.clientCert.cert.chain != [] && !n.client.pc.CFailed? && ClientsTurn(PhaseOf(k, n.client.seen))
    requires n.client.pc == CSendCert ==> Retried(k, n.server)
    ensures var n' := Apply(k, n, x.NextStep(n)); OnTheWay(k, n') || AtSignature(k, n')
  {
    hide PhaseOf, WriteCertMsg, WriteCertVerify, CertOk, Stripped;
    Begins(k);
  }

  lemma WayServerSends(k: Crypto, x: Choices, n: Net)
    requires x.Usable(k) && OnTheWay(k, n) && x.retry.Some? && !k.usesPsk(x.sh)
    requires ServerSends(k, n.server, x.ServerStep(n.server)).Some?
    requires (n.server.pc == SHaveHello(false) ==> |n.server.seen| == 1)
    requires ClientSends(k, n.client, x.ServerStep(n.server)) == None
    ensures OnTheWay(k, Apply(k, n, x.ServerStep(n.server)))
  {
    hide Finished, WriteFinished, WriteCertMsg, WriteCertVerify, CertOk, Stripped, MessageHash, ClientSends,
      Precompute;
  }

  lemma WaySend(k: Crypto, x: Choices, n: Net)
    requires k.Lawful() && x.Usable(k) && x.CanSign(k) && Healthy(k, n) && OnTheWay(k, n)
    requires n.toClient == [] && n.toServer == []
    requires x.retry.Some? && !k.usesPsk(x.sh) && x.clientCert.cert.chain != []
    ensures var n' := Apply(k, n, x.NextStep(n)); OnTheWay(k, n') || AtSignature(k, n')
  {
    hide PhaseOf, Refused, WfView, LogOk, KeysAt, ClientHashes, ServerHashes, ServerLogs, ClientUsed, ServerUsed,
      InFlight, Apply, ClientSends, ServerSends, Choices.Usable, Choices.CanSign, Choices.NextStep, Choices.ServerStep;
    QuietViews(k, n);
    Begins(k);
    HelloSize(k, n.server.seen);
    if ClientsTurn(PhaseOf(k, n.client.seen)) {
      WayClientSends(k, x, n);
    } else {
      WhoSends(k, x, n);
      NotBadView(k, n.server.seen);
      ServerCanSend(k, x, n.server);
      WayServerSends(k, x, n);
    }
  }

  lemma WayStep(k: Crypto, x: Choices, n: Net)
    requires k.Lawful() && x.Usable(k) && x.CanSign(k) && Healthy(k, n) && OnTheWay(k, n)
    requires x.retry.Some? && !k.usesPsk(x.sh) && x.clientCert.cert.chain != []
    ensures var n' := Apply(k, n, x.NextStep(n)); OnTheWay(k, n') || AtSignature(k, n')
  {
    hide Healthy, OnTheWay, AtSignature, Apply, Choices.Usable, Choices.CanSign;
    if n.toClient != [] {
      WayRead(k, n);
    } else if n.toServer != [] {
      WayServerReads(k, n);
    } else {
      WaySend(k, x, n);
    }
  }

  lemma {:induction false} ReachesSignature(k: Crypto, x: Choices, n: Net) returns (more: seq<Step>)
    requires k.Lawful() && x.Usable(k) && x.CanSign(k) && Healthy(k, n) && OnTheWay(k, n)
    requires x.retry.Some? && !k.usesPsk(x.sh) && x.clientCert.cert.chain != []
    ensures Healthy(k, Run(k, n, more)) && AtSignature(k, Run(k, n, more))
    decreases 24 - Progress(k, n)
  {
    hide Apply, Run, Choices.Usable, Choices.CanSign, Choices.NextStep, Progress, NetInv;
    var step := x.NextStep(n);
    StepAdvances(k, x, n);
    WayStep(k, x, n);
    ProgressBound(k, Apply(k, n, step));
    RunOne(k, n, step);
    more := [step];
    if !AtSignature(k, Apply(k, n, step)) {
      var rest := ReachesSignature(k, x, Apply(k, n, step));
      more := [step] + rest;
      RunAppend(k, n, [step], rest);
    }
  }

  const ALL_USES: set<Use> := {HandshakeKeys, ServerSignature, ServerFinishedMac, ApplicationKeys, ClientSignature,
                               ClientFinishedMac, ResumptionSecret}

  lemma SignatureUses(k: Crypto, n: Net, view: seq<Bytes>)
    requires ClientInv(k, n.client) && n.client.pc == CSendVerify && n.client.seen <= view && WfView(k, view)
    ensures forall u | u in ALL_USES - {ClientFinishedMac, ResumptionSecret} :: At(k, view, u).Some?
  {
    hide PhaseOf, WfView, LogOk, KeysAt, ClientHashes, ClientUsed, At;
    UsesPassed(k, n.client.seen);
    assert view[..|n.client.seen|] == n.client.seen;
    forall u | u in ALL_USES - {ClientFinishedMac, ResumptionSecret} ensures At(k, view, u).Some? {
      AtStable(k, view, |n.client.seen|, u);
    }
  }

  lemma AllSeven(log: map<Use, Bytes>)
    requires forall u | u in ALL_USES :: u in log
    ensures log.Keys == ALL_USES
  {
    forall u | u in log.Keys ensures u in ALL_USES {
      assert u.HandshakeKeys? || u.ServerSignature? || u.ServerFinishedMac? || u.ApplicationKeys? || u.ClientSignature?
          || u.ClientFinishedMac? || u.ResumptionSecret?;
    }
  }

  /** A handshake with a HelloRetryRequest, the server's certificate and the client's runs to its end, and
      there both sides have made all seven uses of the transcript, each of the same bytes. */
  lemma FullHandshakeCompletes(k: Crypto, x: Choices) returns (steps: seq<Step>)
    requires k.Lawful() && x.Usable(k) && x.CanSign(k)
    requires x.retry.Some? && !k.usesPsk(x.sh) && x.clientCert.cert.chain != []
    ensures var n := Run(k, Start(true), steps);
      && Done(n) && Retried(k, n.server) && n.client.seen == n.server.seen
      && n.client.log == n.server.log && n.client.log.Keys == ALL_USES
  {
    hide Run, Choices.Usable, Choices.CanSign, ClientInv, ServerInv, Linked, At, Refused, WfView;
    var n0 := Start(true);
    StartInv(k, true);
    var first := ReachesSignature(k, x, n0);
    var n1 := Run(k, n0, first);
    var more := CompletesFrom(k, x, n1);
    steps := first + more;
    RunAppend(k, n0, first, more);
    var n := Run(k, n0, steps);
    CompletionAgrees(k, true, steps);
    CompletionLogsEqual(k, true, steps);
    RunInv(k, true, steps);
    ClientView(k, n.client);
    SignatureUses(k, n1, n.client.seen);
    AllSeven(n.client.log);
  }
}
