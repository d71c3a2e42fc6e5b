/** The joint system under an adversary who owns both channels: at any moment either queue may be replaced
    by any other, so messages may be altered, dropped, reordered, repeated or made up. */
module HandshakeTamper {
  import opened Wire
  import opened Certificate
  import opened Handshake
  import opened HandshakeRun
  import opened HandshakeJoint

  datatype Event = Honest(step: Step) | Tamper(toServer: seq<Bytes>, toClient: seq<Bytes>)

  function React(k: Crypto, n: Net, e: Event): (r: Net)
  {
    match e
    case Honest(step) => Apply(k, n, step)
    case Tamper(toServer, toClient) => n.(toServer := toServer, toClient := toClient)
  }

  function TamperedRun(k: Crypto, clientAuth: bool, events: seq<Event>): (r: Net)
  {
    if events == [] then Start(clientAuth)
    else React(k, TamperedRun(k, clientAuth, events[..|events| - 1]), events[|events| - 1])
  }

  // ---- What an endpoint keeps whatever it is given ----

  predicate EarlyClient(c: Client) { c.pc == CStart || c.pc.CWaitHello? || c.pc == CSendHello2 || c.pc.CFailed? }
  predicate LateClient(c: Client) { c.pc == CSendCert || c.pc == CSendVerify || c.pc == CSendFinished || c.pc == CDone }

  predicate ClientKeys(c: Client) { EarlyClient(c) || (HandshakeKeys in c.log && c.log[HandshakeKeys] == c.hsAt) }

  predicate EarlyServer(s: Server)
  {
    s.pc == SWaitHello || s.pc.SHaveHello? || s.pc == SWaitHello2 || s.pc.SFailed?
  }
  predicate LateServer(s: Server)
  {
    s.pc == SWaitCert || s.pc == SWaitVerify || s.pc == SWaitFinished || s.pc == SDone || s.pc.SFailed?
  }

  /** The Finished the server expects is the one for its own keys and transcript, and its resumption secret
      is already taken over it. */
  predicate Expects(k: Crypto, s: Server)
  {
    && {ClientFinishedMac, ResumptionSecret} <= s.log.Keys
    && s.clientFinished == k.mac(k.derive(ClientHandshake, s.hsAt), s.log[ClientFinishedMac])
    && WriteFinished(s.clientFinished).Some?
    && s.log[ResumptionSecret] == s.log[ClientFinishedMac] + WriteFinished(s.clientFinished).value
  }

  predicate ServerKeys(k: Crypto, s: Server)
  {
    && (EarlyServer(s) || (HandshakeKeys in s.log && s.log[HandshakeKeys] == s.hsAt))
    && (s.pc == SWaitFinished || s.pc == SDone ==> Expects(k, s))
  }

  predicate Sound(k: Crypto, n: Net) { ClientKeys(n.client) && ServerKeys(k, n.server) }

  predicate SameKeys(c: Client, c': Client)
  {
    && c'.hsAt == c.hsAt
    && (HandshakeKeys in c.log ==> HandshakeKeys in c'.log && c'.log[HandshakeKeys] == c.log[HandshakeKeys])
  }

  lemma ClientReadsSameKeys(k: Crypto, c: Client, m: Bytes)
    ensures SameKeys(c, ClientCertificate(k, c, m)) && SameKeys(c, ClientVerify(k, c, m))
    ensures SameKeys(c, ClientFinish(k, c, m))
  {
    hide WriteFinished, ReadFinished, ReadCertMsg, WriteCertMsg, ReadCertVerify, WriteCertVerify;
  }

  lemma ClientTakesSound(k: Crypto, c: Client, m: Bytes)
    requires ClientKeys(c)
    ensures ClientKeys(ClientTakes(k, c, m))
  {
    hide ClientCertificate, ClientVerify, ClientFinish, MessageHash;
    ClientReadsSameKeys(k, c, m);
  }

  lemma ClientSendsSound(k: Crypto, c: Client, step: Step)
    requires ClientKeys(c) && ClientSends(k, c, step).Some?
    ensures ClientKeys(ClientSends(k, c, step).value.0)
  {
    hide WriteFinished, WriteCertMsg, WriteCertVerify;
  }

  lemma PrecomputeSound(k: Crypto, s: Server)
    requires HandshakeKeys in s.log && s.log[HandshakeKeys] == s.hsAt
    ensures ServerKeys(k, Precompute(k, s))
  {
    hide WriteFinished;
  }

  lemma ServerTakesSound(k: Crypto, s: Server, m: Bytes)
    requires ServerKeys(k, s)
    ensures ServerKeys(k, ServerTakes(k, s, m))
  {
    hide WriteFinished, ReadFinished, ReadCertMsg, ReadCertVerify, WriteCertVerify, Precompute;
    match s.pc
    case SWaitCert => PrecomputeSound(k, s.Add(m, m, SWaitFinished));
    case SWaitVerify =>
      if ReadCertVerify(m).Some? && WriteCertVerify(ReadCertVerify(m).value).Some? {
        var again := WriteCertVerify(ReadCertVerify(m).value).value;
        PrecomputeSound(k, s.Use(ClientSignature).Add(m, again, SWaitFinished));
      }
    case _ =>
  }

  lemma ServerSendsSound(k: Crypto, s: Server, step: Step)
    requires ServerKeys(k, s) && ServerSends(k, s, step).Some?
    ensures ServerKeys(k, ServerSends(k, s, step).value.0)
  {
    hide WriteFinished, WriteCertMsg, WriteCertVerify, Precompute, MessageHash;
    if s.pc == SSendFinished {
      var m := WriteFinished(Finished(k, ServerHandshake, s.hsAt, s.transcript)).value;
      PrecomputeSound(k, s.Use(ServerFinishedMac).Add(m, m, SWaitCert).Use(ApplicationKeys));
    }
  }

  lemma {:induction false} TamperedSound(k: Crypto, clientAuth: bool, events: seq<Event>)
    ensures Sound(k, TamperedRun(k, clientAuth, events))
  {
    hide ClientKeys, ServerKeys, ClientTakes, ServerTakes, ClientSends, ServerSends;
    if events == [] {
      StartSound(k, clientAuth);
    } else {
      var n, e := TamperedRun(k, clientAuth, events[..|events| - 1]), events[|events| - 1];
      TamperedSound(k, clientAuth, events[..|events| - 1]);
      if e.Honest? {
        if e.step.ClientReads? && n.toClient != [] { ClientTakesSound(k, n.client, n.toClient[0]); }
        if e.step.ServerReads? && n.toServer != [] { ServerTakesSound(k, n.server, n.toServer[0]); }
        if ClientSends(k, n.client, e.step).Some? { ClientSendsSound(k, n.client, e.step); }
        if ServerSends(k, n.server, e.step).Some? { ServerSendsSound(k, n.server, e.step); }
      }
    }
  }

  lemma StartSound(k: Crypto, clientAuth: bool)
    ensures Sound(k, Start(clientAuth))
  {
  }

  // ---- Uses are not made twice ----

  const SERVER_USES: set<Use> := {HandshakeKeys, ServerFinishedMac, ApplicationKeys}
  const CLIENT_USES: set<Use> := {HandshakeKeys, ClientFinishedMac, ResumptionSecret}

  predicate Keeps(us: set<Use>, log: map<Use, Bytes>, log': map<Use, Bytes>)
  {
    forall u | u in us && u in log :: u in log' && log'[u] == log[u]
  }

  /** A client past the server's Finished reads nothing more and keeps what it has derived up to there. */
  predicate ClientSettled(c: Client, c': Client)
  {
    LateClient(c) ==> LateClient(c') && Keeps(SERVER_USES, c.log, c'.log) && (c.pc == CDone ==> c' == c)
  }

  predicate ServerSettled(s: Server, s': Server)
  {
    LateServer(s) ==> LateServer(s') && Keeps(SERVER_USES, s.log, s'.log) && (s.pc == SDone ==> s' == s)
  }

  predicate Settled(n: Net, n': Net) { ClientSettled(n.client, n'.client) && ServerSettled(n.server, n'.server) }

  lemma PrecomputeKeeps(k: Crypto, s: Server)
    ensures LateServer(Precompute(k, s)) && Keeps(SERVER_USES, s.log, Precompute(k, s).log)
  {
    hide WriteFinished;
  }

  lemma CertificateSettles(k: Crypto, s: Server, m: Bytes)
    requires s.pc == SWaitCert
    ensures LateServer(ServerCertificate(k, s, m)) && Keeps(SERVER_USES, s.log, ServerCertificate(k, s, m).log)
  {
    hide ReadCertMsg, Precompute;
    PrecomputeKeeps(k, s.Add(m, m, SWaitFinished));
  }

  lemma VerifySettles(k: Crypto, s: Server, m: Bytes)
    requires s.pc == SWaitVerify
    ensures LateServer(ServerVerify(k, s, m)) && Keeps(SERVER_USES, s.log, ServerVerify(k, s, m).log)
  {
    hide ReadCertVerify, WriteCertVerify, Precompute;
    if ReadCertVerify(m).Some? && WriteCertVerify(ReadCertVerify(m).value).Some? {
      var again := WriteCertVerify(ReadCertVerify(m).value).value;
      PrecomputeKeeps(k, s.Use(ClientSignature).Add(m, again, SWaitFinished));
    }
  }

  lemma ServerSettles(k: Crypto, s: Server, m: Bytes)
    ensures ServerSettled(s, ServerTakes(k, s, m))
  {
    hide ReadFinished, ServerCertificate, ServerVerify;
    match s.pc
    case SWaitCert => CertificateSettles(k, s, m);
    case SWaitVerify => VerifySettles(k, s, m);
    case _ =>
  }

  lemma SendersSettle(k: Crypto, c: Client, s: Server, step: Step)
    ensures ClientSends(k, c, step).Some? ==> ClientSettled(c, ClientSends(k, c, step).value.0)
    ensures ServerSends(k, s, step).Some? ==> !LateServer(s)
  {
    hide WriteFinished, WriteCertMsg, WriteCertVerify, Precompute, MessageHash;
  }

  lemma EventSettles(k: Crypto, n: Net, e: Event)
    ensures Settled(n, React(k, n, e))
  {
    hide WriteFinished, ServerTakes, ClientSends, ServerSends;
    if e.Honest? {
      SendersSettle(k, n.client, n.server, e.step);
      if n.toServer != [] { ServerSettles(k, n.server, n.toServer[0]); }
    }
  }

  lemma {:induction false} RunSettles(k: Crypto, clientAuth: bool, events: seq<Event>, i: nat)
    requires i <= |events|
    ensures Settled(TamperedRun(k, clientAuth, events[..i]), TamperedRun(k, clientAuth, events))
  {
    hide React;
    if i == |events| {
      assert events[..i] == events;
    } else {
      var before := events[..|events| - 1];
      assert before[..i] == events[..i];
      RunSettles(k, clientAuth, before, i);
      EventSettles(k, TamperedRun(k, clientAuth, before), events[|events| - 1]);
    }
  }

  // ---- Sending and taking in a Finished ----

  /** At event i the client, waiting for the server's Finished, reads m and does not fail. */
  predicate ClientTakesFinished(k: Crypto, clientAuth: bool, events: seq<Event>, i: nat, m: Bytes)
  {
    && i < |events| && events[i] == Honest(ClientReads)
    && var n := TamperedRun(k, clientAuth, events[..i]);
    && n.client.pc == CWaitFinished && n.toClient != [] && n.toClient[0] == m
    && !ClientTakes(k, n.client, m).pc.CFailed?
  }

  /** At event i the server sends its Finished, m. */
  predicate ServerSendsFinished(k: Crypto, clientAuth: bool, events: seq<Event>, i: nat, m: Bytes)
  {
    && i < |events| && events[i] == Honest(ServerFinishes)
    && var n := TamperedRun(k, clientAuth, events[..i]);
    n.server.pc == SSendFinished && TamperedRun(k, clientAuth, events[..i + 1]).toClient == n.toClient + [m]
  }

  predicate ServerTakesFinished(k: Crypto, clientAuth: bool, events: seq<Event>, i: nat, m: Bytes)
  {
    && i < |events| && events[i] == Honest(ServerReads)
    && var n := TamperedRun(k, clientAuth, events[..i]);
    && n.server.pc == SWaitFinished && n.toServer != [] && n.toServer[0] == m
    && !ServerTakes(k, n.server, m).pc.SFailed?
  }

  predicate ClientSendsFinished(k: Crypto, clientAuth: bool, events: seq<Event>, i: nat, m: Bytes)
  {
    && i < |events| && events[i] == Honest(ClientFinishes)
    && var n := TamperedRun(k, clientAuth, events[..i]);
    n.client.pc == CSendFinished && TamperedRun(k, clientAuth, events[..i + 1]).toServer == n.toServer + [m]
  }

  /** Two different inputs with the same Finished. */
  predicate Collision(k: Crypto, s: Secret, keys: Bytes, t: Bytes, keys': Bytes, t': Bytes)
  {
    (keys, t) != (keys', t') && k.mac(k.derive(s, keys), t) == k.mac(k.derive(s, keys'), t')
  }

  /** m is the Finished for the keys and the transcript in the log, and what comes after is derived from the
      transcript with m. */
  predicate Confirms(k: Crypto, s: Secret, log: map<Use, Bytes>, macAt: Use, after: Use, m: Bytes)
  {
    && {HandshakeKeys, macAt, after} <= log.Keys
    && WriteFinished(k.mac(k.derive(s, log[HandshakeKeys]), log[macAt])) == Some(m)
    && log[after] == log[macAt] + m
  }

  lemma NextEvent(k: Crypto, clientAuth: bool, events: seq<Event>, i: nat)
    requires i < |events|
    ensures TamperedRun(k, clientAuth, events[..i + 1]) == React(k, TamperedRun(k, clientAuth, events[..i]), events[i])
  {
    assert events[..i + 1][..i] == events[..i];
  }

  lemma ClientFinishConfirms(k: Crypto, c: Client, m: Bytes)
    requires k.Lawful() && ClientKeys(c) && c.pc == CWaitFinished && !ClientTakes(k, c, m).pc.CFailed?
    ensures LateClient(ClientTakes(k, c, m))
    ensures Confirms(k, ServerHandshake, ClientTakes(k, c, m).log, ServerFinishedMac, ApplicationKeys, m)
  {
    hide WriteFinished, ReadFinished;
    var data := Finished(k, ServerHandshake, c.hsAt, c.transcript);
    FinishedSize(k, ServerHandshake, c.hsAt, c.transcript);
    FinishedSoundBytes(m, data);
  }

  lemma ServerFinishConfirms(k: Crypto, s: Server)
    requires ServerKeys(k, s) && s.pc == SSendFinished && ServerSends(k, s, ServerFinishes).Some?
    ensures var (s', m) := ServerSends(k, s, ServerFinishes).value;
            LateServer(s') && Confirms(k, ServerHandshake, s'.log, ServerFinishedMac, ApplicationKeys, m)
  {
    hide WriteFinished, Precompute;
    var m := ServerSends(k, s, ServerFinishes).value.1;
    PrecomputeKeeps(k, s.Use(ServerFinishedMac).Add(m, m, SWaitCert).Use(ApplicationKeys));
  }

  lemma TakenConfirms(k: Crypto, clientAuth: bool, events: seq<Event>, i: nat, m: Bytes)
    requires k.Lawful() && ClientTakesFinished(k, clientAuth, events, i, m)
    ensures Confirms(k, ServerHandshake, TamperedRun(k, clientAuth, events).client.log,
                     ServerFinishedMac, ApplicationKeys, m)
  {
    hide TamperedRun, WriteFinished, ClientTakes, LateClient;
    NextEvent(k, clientAuth, events, i);
    TamperedSound(k, clientAuth, events[..i]);
    ClientFinishConfirms(k, TamperedRun(k, clientAuth, events[..i]).client, m);
    RunSettles(k, clientAuth, events, i + 1);
  }

  lemma SentConfirms(k: Crypto, clientAuth: bool, events: seq<Event>, i: nat, m: Bytes)
    requires ServerSendsFinished(k, clientAuth, events, i, m)
    ensures Confirms(k, ServerHandshake, TamperedRun(k, clientAuth, events).server.log,
                     ServerFinishedMac, ApplicationKeys, m)
  {
    hide TamperedRun, WriteFinished, ServerSends, LateServer;
    var n := TamperedRun(k, clientAuth, events[..i]);
    NextEvent(k, clientAuth, events, i);
    TamperedSound(k, clientAuth, events[..i]);
    assert |n.toClient + [m]| > |n.toClient|;
    ServerFinishConfirms(k, n.server);
    assert (n.toClient + [m])[|n.toClient|] == m;
    RunSettles(k, clientAuth, events, i + 1);
  }

  lemma ConfirmedAgree(k: Crypto, s: Secret, log: map<Use, Bytes>, log': map<Use, Bytes>, macAt: Use, after: Use,
                       m: Bytes)
    requires k.Lawful() && Confirms(k, s, log, macAt, after, m) && Confirms(k, s, log', macAt, after, m)
    ensures || (forall u | u in {HandshakeKeys, macAt, after} :: log[u] == log'[u])
            || Collision(k, s, log[HandshakeKeys], log[macAt], log'[HandshakeKeys], log'[macAt])
  {
    hide WriteFinished, ReadFinished;
    FinishedSize(k, s, log[HandshakeKeys], log[macAt]);
    FinishedSize(k, s, log'[HandshakeKeys], log'[macAt]);
    FinishedSoundBytes(m, Finished(k, s, log[HandshakeKeys], log[macAt]));
    FinishedSoundBytes(m, Finished(k, s, log'[HandshakeKeys], log'[macAt]));
  }

  /** In every run, whatever the adversary does to the channels before, between and after: if the client took
      in a Finished that the server sent, the two hold the same transcripts for the handshake keys, the
      Finished and the application keys, or those transcripts are a collision of the Finished MAC. */
  lemma ServerFinishedBinds(k: Crypto, clientAuth: bool, events: seq<Event>, i: nat, j: nat, m: Bytes)
    requires k.Lawful()
    requires ClientTakesFinished(k, clientAuth, events, i, m) && ServerSendsFinished(k, clientAuth, events, j, m)
    ensures var n := TamperedRun(k, clientAuth, events);
      && SERVER_USES <= n.client.log.Keys * n.server.log.Keys
      && (|| (forall u | u in SERVER_USES :: n.client.log[u] == n.server.log[u])
          || Collision(k, ServerHandshake, n.client.log[HandshakeKeys], n.client.log[ServerFinishedMac],
                       n.server.log[HandshakeKeys], n.server.log[ServerFinishedMac]))
  {
    hide TamperedRun, ClientTakesFinished, ServerSendsFinished, WriteFinished;
    TakenConfirms(k, clientAuth, events, i, m);
    SentConfirms(k, clientAuth, events, j, m);
    var n := TamperedRun(k, clientAuth, events);
    ConfirmedAgree(k, ServerHandshake, n.client.log, n.server.log, ServerFinishedMac, ApplicationKeys, m);
  }

  // ---- The client's Finished ----

  lemma ServerTakesConfirms(k: Crypto, s: Server, m: Bytes)
    requires k.Lawful() && ServerKeys(k, s) && s.pc == SWaitFinished && !ServerTakes(k, s, m).pc.SFailed?
    ensures ServerTakes(k, s, m).pc == SDone
    ensures Confirms(k, ClientHandshake, ServerTakes(k, s, m).log, ClientFinishedMac, ResumptionSecret, m)
  {
    hide WriteFinished, ReadFinished;
    FinishedSize(k, ClientHandshake, s.hsAt, s.log[ClientFinishedMac]);
    FinishedSoundBytes(m, s.clientFinished);
  }

  lemma ClientSendsConfirms(k: Crypto, c: Client)
    requires ClientKeys(c) && c.pc == CSendFinished && ClientSends(k, c, ClientFinishes).Some?
    ensures var (c', m) := ClientSends(k, c, ClientFinishes).value;
            c'.pc == CDone && Confirms(k, ClientHandshake, c'.log, ClientFinishedMac, ResumptionSecret, m)
  {
    hide WriteFinished;
  }

  lemma ServerTookConfirms(k: Crypto, clientAuth: bool, events: seq<Event>, i: nat, m: Bytes)
    requires k.Lawful() && ServerTakesFinished(k, clientAuth, events, i, m)
    ensures Confirms(k, ClientHandshake, TamperedRun(k, clientAuth, events).server.log,
                     ClientFinishedMac, ResumptionSecret, m)
  {
    hide TamperedRun, WriteFinished, ServerTakes;
    NextEvent(k, clientAuth, events, i);
    TamperedSound(k, clientAuth, events[..i]);
    ServerTakesConfirms(k, TamperedRun(k, clientAuth, events[..i]).server, m);
    RunSettles(k, clientAuth, events, i + 1);
  }

  lemma ClientSentConfirms(k: Crypto, clientAuth: bool, events: seq<Event>, i: nat, m: Bytes)
    requires ClientSendsFinished(k, clientAuth, events, i, m)
    ensures Confirms(k, ClientHandshake, TamperedRun(k, clientAuth, events).client.log,
                     ClientFinishedMac, ResumptionSecret, m)
  {
    hide TamperedRun, WriteFinished, ClientSends;
    var n := TamperedRun(k, clientAuth, events[..i]);
    NextEvent(k, clientAuth, events, i);
    TamperedSound(k, clientAuth, events[..i]);
    assert |n.toServer + [m]| > |n.toServer|;
    ClientSendsConfirms(k, n.client);
    assert (n.toServer + [m])[|n.toServer|] == m;
    RunSettles(k, clientAuth, events, i + 1);
  }

  /** Likewise for a server that took in a Finished its client sent: the handshake keys, the client's
      Finished and the resumption secret. */
  lemma ClientFinishedBinds(k: Crypto, clientAuth: bool, events: seq<Event>, i: nat, j: nat, m: Bytes)
    requires k.Lawful()
    requires ServerTakesFinished(k, clientAuth, events, i, m) && ClientSendsFinished(k, clientAuth, events, j, m)
    ensures var n := TamperedRun(k, clientAuth, events);
      && CLIENT_USES <= n.client.log.Keys * n.server.log.Keys
      && (|| (forall u | u in CLIENT_USES :: n.client.log[u] == n.server.log[u])
          || Collision(k, ClientHandshake, n.client.log[HandshakeKeys], n.client.log[ClientFinishedMac],
                       n.server.log[HandshakeKeys], n.server.log[ClientFinishedMac]))
  {
    hide TamperedRun, ServerTakesFinished, ClientSendsFinished, WriteFinished;
    ServerTookConfirms(k, clientAuth, events, i, m);
    ClientSentConfirms(k, clientAuth, events, j, m);
    var n := TamperedRun(k, clientAuth, events);
    ConfirmedAgree(k, ClientHandshake, n.client.log, n.server.log, ClientFinishedMac, ResumptionSecret, m);
  }
}
