/** The joint system: what holds in every state the two endpoints can reach together. */
module HandshakeJoint {
  import opened Wire
  import opened Certificate
  import opened Handshake
  import opened HandshakeAgree
  import opened HandshakeRun

  /** One endpoint is ahead, by messages that were its own to send and are in its channel. */
  ghost predicate InFlight(k: Crypto, ahead: seq<Bytes>, behind: seq<Bytes>, queue: seq<Bytes>, byClient: bool)
  {
    && behind <= ahead && queue == ahead[|behind|..]
    && forall i | |behind| <= i < |ahead| :: ClientsTurn(PhaseOf(k, ahead[..i])) == byClient
  }

  ghost predicate Linked(k: Crypto, n: Net)
  {
    || (n.toClient == [] && InFlight(k, n.client.seen, n.server.seen, n.toServer, true))
    || (n.toServer == [] && InFlight(k, n.server.seen, n.client.seen, n.toClient, false))
  }

  ghost predicate NetInv(k: Crypto, n: Net)
  {
    && ClientInv(k, n.client) && ServerInv(k, n.server) && Linked(k, n)
    && (n.client.pc.CFailed? ==> n.client.pc.why == BadMessage && n.toClient != [] && Refused(n.toClient[0]))
    && (n.server.pc.SFailed? ==> n.server.pc.why == BadMessage && n.toServer != [] && Refused(n.toServer[0]))
  }

  // ---- Channels ----

  lemma Sent(k: Crypto, ahead: seq<Bytes>, behind: seq<Bytes>, queue: seq<Bytes>, byClient: bool, m: Bytes)
    requires InFlight(k, ahead, behind, queue, byClient) && ClientsTurn(PhaseOf(k, ahead)) == byClient
    ensures InFlight(k, ahead + [m], behind, queue + [m], byClient)
  {
    hide PhaseOf;
    forall i | |behind| <= i < |ahead| + 1 ensures ClientsTurn(PhaseOf(k, (ahead + [m])[..i])) == byClient {
      assert (ahead + [m])[..i] == ahead[..i];
      assert i == |ahead| ==> ahead[..i] == ahead;
    }
  }

  lemma Turned(k: Crypto, view: seq<Bytes>)
    ensures InFlight(k, view, view, [], true) && InFlight(k, view, view, [], false)
  {
  }

  /** Whoever may send next is not behind. */
  lemma SenderIsAhead(k: Crypto, n: Net)
    requires Linked(k, n)
    ensures ClientsTurn(PhaseOf(k, n.client.seen)) ==>
            n.toClient == [] && InFlight(k, n.client.seen, n.server.seen, n.toServer, true)
    ensures !ClientsTurn(PhaseOf(k, n.server.seen)) ==>
            n.toServer == [] && InFlight(k, n.server.seen, n.client.seen, n.toClient, false)
  {
    hide PhaseOf;
    var c, s := n.client.seen, n.server.seen;
    if c <= s && |c| < |s| { assert s[..|c|] == c; }
    if s <= c && |s| < |c| { assert c[..|s|] == s; }
    if |c| == |s| && (c <= s || s <= c) {
      assert c == s;
      Turned(k, c);
    }
  }

  lemma Taken(k: Crypto, ahead: seq<Bytes>, behind: seq<Bytes>, queue: seq<Bytes>, byClient: bool)
    requires InFlight(k, ahead, behind, queue, byClient) && queue != [] && WfView(k, ahead)
    ensures Next(k, behind, queue[0]) && ClientsTurn(PhaseOf(k, behind)) == byClient
    ensures InFlight(k, ahead, behind + [queue[0]], queue[1..], byClient)
  {
    hide PhaseOf, WfView, WfMsg, Advance;
    assert ahead[..|behind|] == behind;
    WfPrefix(k, ahead, |behind|);
    assert behind + [queue[0]] <= ahead;
  }

  // ---- Steps ----

  lemma ClientReadKeeps(k: Crypto, n: Net)
    requires k.Lawful() && NetInv(k, n)
    ensures NetInv(k, Apply(k, n, ClientReads))
  {
    hide ClientTakes, WfView, Next, ClientsTurn, ServerTakes, InFlight, PhaseOf, ClientPhase, ClientHashes, LogOk,
      KeysAt, ClientUsed, ServerInv, Refused;
    if n.toClient != [] {
      if n.client.pc.CFailed? {
        FailedTakesNothing(k, n.client, n.toClient[0]);
      } else {
        var m := n.toClient[0];
        ServerView(k, n.server);
        Taken(k, n.server.seen, n.client.seen, n.toClient, false);
        ClientTakeKeeps(k, n.client, m);
      }
    }
  }

  lemma ServerView(k: Crypto, s: Server)
    requires ServerInv(k, s)
    ensures WfView(k, s.seen)
  {
  }

  lemma FailedTakesNothing(k: Crypto, c: Client, m: Bytes)
    requires c.pc.CFailed?
    ensures ClientTakes(k, c, m) == c
  {
  }

  lemma FailedServerTakesNothing(k: Crypto, s: Server, m: Bytes)
    requires s.pc.SFailed?
    ensures ServerTakes(k, s, m) == s
  {
  }

  lemma ClientView(k: Crypto, c: Client)
    requires ClientInv(k, c)
    ensures WfView(k, c.seen)
  {
  }

  lemma ServerReadKeeps(k: Crypto, n: Net)
    requires k.Lawful() && NetInv(k, n)
    ensures NetInv(k, Apply(k, n, ServerReads))
  {
    hide ClientTakes, WfView, Next, ClientsTurn, ServerTakes, InFlight, PhaseOf, ServerPhase, ServerHashes, ServerLogs,
      LogOk, KeysAt, ServerUsed, ClientInv, Refused;
    if n.toServer != [] {
      if n.server.pc.SFailed? {
        FailedServerTakesNothing(k, n.server, n.toServer[0]);
      } else {
        var m := n.toServer[0];
        ClientView(k, n.client);
        Taken(k, n.client.seen, n.server.seen, n.toServer, true);
        ServerTakeKeeps(k, n.server, m);
      }
    }
  }

  lemma SendKeeps(k: Crypto, n: Net, step: Step)
    requires k.Lawful() && NetInv(k, n) && !step.ClientReads? && !step.ServerReads?
    ensures NetInv(k, Apply(k, n, step))
  {
    hide ClientSends, ServerSends, InFlight, PhaseOf, ClientInv, ServerInv, Refused, ClientsTurn;
    SenderIsAhead(k, n);
    if ClientSends(k, n.client, step).Some? {
      ClientSendKeeps(k, n.client, step);
      var (c, m) := ClientSends(k, n.client, step).value;
      Sent(k, n.client.seen, n.server.seen, n.toServer, true, m);
    } else if ServerSends(k, n.server, step).Some? {
      ServerSendKeeps(k, n.server, step);
      var (s, m) := ServerSends(k, n.server, step).value;
      Sent(k, n.server.seen, n.client.seen, n.toClient, false, m);
    }
  }

  lemma {:induction false} RunInv(k: Crypto, clientAuth: bool, steps: seq<Step>)
    requires k.Lawful()
    ensures NetInv(k, Run(k, Start(clientAuth), steps))
  {
    hide Apply, NetInv;
    if steps == [] {
      StartInv(k, clientAuth);
    } else {
      var n, step := Run(k, Start(clientAuth), steps[..|steps| - 1]), steps[|steps| - 1];
      RunInv(k, clientAuth, steps[..|steps| - 1]);
      match step
      case ClientReads => ClientReadKeeps(k, n);
      case ServerReads => ServerReadKeeps(k, n);
      case _ => SendKeeps(k, n, step);
    }
  }

  lemma StartInv(k: Crypto, clientAuth: bool)
    ensures NetInv(k, Start(clientAuth))
  {
  }

  // ---- The theorems ----

  lemma AgreeOnUse(k: Crypto, ahead: seq<Bytes>, behind: seq<Bytes>, u: Use)
    requires WfView(k, ahead) && behind <= ahead && At(k, ahead, u).Some? && At(k, behind, u).Some?
    ensures At(k, ahead, u) == At(k, behind, u)
  {
    hide WfView, At;
    assert ahead[..|behind|] == behind;
    AtStable(k, ahead, |behind|, u);
  }

  /** After the client has finished, a server still waiting for its Finished lacks just that message. */
  lemma OneMessageLeft(k: Crypto, c: Client, s: Server)
    requires k.Lawful() && ClientInv(k, c) && ServerInv(k, s) && s.seen <= c.seen && s.pc == SWaitFinished
    requires ResumptionSecret in c.log
    ensures c.seen[..|c.seen| - 1] == s.seen && c.log[ResumptionSecret] == s.log[ResumptionSecret]
  {
    hide T, At, WfView, WfMsg, LogOk, KeysAt, ServerLogs, ClientUsed, ServerUsed, ClientHashes, ServerHashes, PhaseOf;
    var j := |s.seen|;
    assert c.seen[..j] == s.seen && c.seen[..|c.seen|] == c.seen;
    CompleteAtResumption(k, c);
    WfPrefix(k, c.seen, j);
    if j + 1 < |c.seen| { WfPrefix(k, c.seen, j + 1); }
    LastFinished(k, c, s);
  }

  lemma CompleteAtResumption(k: Crypto, c: Client)
    requires ClientInv(k, c) && ResumptionSecret in c.log
    ensures c.seen != [] && PhaseOf(k, c.seen) == Complete && c.log[ResumptionSecret] == T(k, c.seen)
  {
    hide T, WfView, ClientPhase, ClientHashes, KeysAt, ClientUsed;
    NotBadView(k, c.seen);
    AtRank(k, c.seen, ResumptionSecret);
  }

  lemma NotBadView(k: Crypto, view: seq<Bytes>)
    requires WfView(k, view)
    ensures PhaseOf(k, view) != Bad
  {
  }

  lemma LastFinished(k: Crypto, c: Client, s: Server)
    requires k.Lawful() && ClientInv(k, c) && ServerInv(k, s) && s.pc == SWaitFinished
    requires c.seen != [] && c.seen[..|c.seen| - 1] == s.seen && c.log.Keys >= {ResumptionSecret}
    requires c.log[ResumptionSecret] == T(k, c.seen)
    ensures c.log[ResumptionSecret] == s.log[ResumptionSecret]
  {
    hide T, At, WfView, WfMsg, LogOk, ServerLogs, ClientPhase, ClientHashes, ClientUsed, ServerUsed, WriteFinished,
      Finished, KeysAt, PhaseOf;
    var m := c.seen[|c.seen| - 1];
    HelloSize(k, s.seen);
    WfPrefix(k, c.seen, |s.seen|);
    assert c.seen == s.seen + [m];
    TNext(k, s.seen, m);
    FinishedSent(k, s.seen, ClientHandshake, s.hsAt, m);
  }

  /** In every run, whatever the two sides choose and however their steps interleave, with or without a
      HelloRetryRequest, a pre-shared key or client certificates: a transcript both have used for the
      same purpose was the same. */
  lemma TranscriptsAgree(k: Crypto, clientAuth: bool, steps: seq<Step>)
    requires k.Lawful()
    ensures var n := Run(k, Start(clientAuth), steps);
      forall u | u in n.client.log && u in n.server.log :: n.client.log[u] == n.server.log[u]
  {
    hide Run, ClientPhase, ClientHashes, ClientUsed, ServerPhase, ServerHashes, ServerUsed, KeysAt, At, WfView,
      PhaseOf, ClientsTurn, T, Refused;
    var n := Run(k, Start(clientAuth), steps);
    RunInv(k, clientAuth, steps);
    forall u | u in n.client.log && u in n.server.log ensures n.client.log[u] == n.server.log[u] {
      if u == ResumptionSecret && n.server.pc == SWaitFinished {
        ServerNotAhead(k, n);
        OneMessageLeft(k, n.client, n.server);
      } else {
        assert At(k, n.client.seen, u) == Some(n.client.log[u]);
        assert At(k, n.server.seen, u) == Some(n.server.log[u]) by {
          assert u in n.server.log - {ResumptionSecret} || n.server.pc == SDone;
        }
        if n.server.seen <= n.client.seen { AgreeOnUse(k, n.client.seen, n.server.seen, u); }
        else { AgreeOnUse(k, n.server.seen, n.client.seen, u); }
      }
    }
  }

  lemma ServerNotAhead(k: Crypto, n: Net)
    requires NetInv(k, n) && n.server.pc == SWaitFinished && ResumptionSecret in n.client.log
    ensures n.server.seen <= n.client.seen
  {
    hide ClientHashes, ClientUsed, ServerHashes, ServerUsed, ServerLogs, KeysAt, At, T, Refused;
    CompleteAtResumption(k, n.client);
    if !(n.server.seen <= n.client.seen) {
      var j := |n.client.seen|;
      assert n.server.seen[..j] == n.client.seen;
      WfPrefix(k, n.server.seen, j);
      assert false;
    }
  }

  // ---- Binders ----

  /** What the client's binders cover: cut takes the binder list off a hello. After a retry the transcript of
      the first hello and the request comes before the second hello. */
  function ClientBinderInput(k: Crypto, cut: Bytes -> Bytes, c: Client): (r: Bytes)
  {
    if c.pc == CWaitHello(true) && |c.seen| == 3 then MessageHash(k, c.seen[0]) + c.seen[1] + cut(c.seen[2])
    else cut(c.hello)
  }

  /** What the server checks them against: its transcript so far, then the hello. */
  function ServerBinderInput(cut: Bytes -> Bytes, s: Server): (r: Bytes) { s.transcript + cut(s.hello) }

  /** While the server decides on a hello, the client is waiting for the answer to that very hello, and both
      compute the binders over the same bytes, with or without a HelloRetryRequest. */
  lemma BinderInputsAgree(k: Crypto, clientAuth: bool, steps: seq<Step>, cut: Bytes -> Bytes)
    requires k.Lawful() && Run(k, Start(clientAuth), steps).server.pc.SHaveHello?
    ensures var n := Run(k, Start(clientAuth), steps);
      && n.client.seen == n.server.seen && (n.client.pc.CFailed? || n.client.pc == CWaitHello(n.server.pc.retried))
      && (!n.client.pc.CFailed? ==> ServerBinderInput(cut, n.server) == ClientBinderInput(k, cut, n.client))
      && (n.server.pc == SHaveHello(false) && !n.client.pc.CFailed? ==> n.server.hello == n.client.hello)
  {
    hide Run, LogOk, KeysAt, At, T, Refused, ServerLogs, ClientUsed, ServerUsed, WfView, PhaseOf, MessageHash, InFlight;
    var n := Run(k, Start(clientAuth), steps);
    RunInv(k, clientAuth, steps);
    SenderIsAhead(k, n);
    HelloSeen(k, n);
    HelloSize(k, n.server.seen);
    if n.server.pc == SHaveHello(true) { RetriedTranscript(k, n.server.seen); }
    assert [] + cut(n.server.hello) == cut(n.server.hello);
  }

  /** The hello the server holds has been sent, so the client is not behind. */
  lemma HelloSeen(k: Crypto, n: Net)
    requires NetInv(k, n) && n.server.pc.SHaveHello? && InFlight(k, n.server.seen, n.client.seen, n.toClient, false)
    ensures n.client.seen == n.server.seen
  {
    hide LogOk, KeysAt, At, T, Refused, ServerLogs, ClientUsed, ServerUsed, ClientPhase, ClientHashes, ServerHashes;
    var s := n.server.seen;
    HelloSize(k, s);
    var last := |s| - 1;
    WfPrefix(k, s, last);
    assert s[..last + 1] == s;
    HelloTurn(k, PhaseOf(k, s[..last]), s[last]);
    assert n.client.seen == s[..|n.client.seen|];
  }

  lemma HelloTurn(k: Crypto, p: Phase, m: Bytes)
    requires Advance(k, p, m).Hello?
    ensures ClientsTurn(p)
  {
  }

  lemma RetriedTranscript(k: Crypto, view: seq<Bytes>)
    requires WfView(k, view) && PhaseOf(k, view) == Hello(true) && |view| == 3
    ensures T(k, view[..2]) == MessageHash(k, view[0]) + view[1]
  {
    hide MessageHash, WfMsg;
    WfPrefix(k, view, 2);
    WfPrefix(k, view, 1);
    assert view[..3] == view && view[..2] == view[..1] + [view[1]] && view[..1] == [view[0]];
    HelloSize(k, view[..1]);
    HelloSize(k, view[..2]);
    TNext(k, view[..1], view[1]);
  }

  /** No run fails on a Finished MAC, a signature, a second retry or an unexpected message. The one way
      to fail is a certificate with an empty stapled item, which its receiver's parser refuses. */
  lemma OnlyCertificatesFail(k: Crypto, clientAuth: bool, steps: seq<Step>)
    requires k.Lawful()
    ensures var n := Run(k, Start(clientAuth), steps);
      && (n.client.pc.CFailed? ==> n.client.pc.why == BadMessage && n.toClient != [] && Refused(n.toClient[0]))
      && (n.server.pc.SFailed? ==> n.server.pc.why == BadMessage && n.toServer != [] && Refused(n.toServer[0]))
  {
    hide Run, ClientInv, ServerInv, Linked, Refused;
    RunInv(k, clientAuth, steps);
  }

  /** A certificate message this library wrote is refused exactly when it staples an empty item. */
  lemma RefusedIsEmptyStaple(cm: CertMsg)
    requires WriteCertMsg(cm).Some?
    ensures Refused(WriteCertMsg(cm).value) <==> !CertOk(Stripped(cm))
  {
    hide WriteCertMsg, ReadCertMsg;
    SentCertificate(cm);
  }

  /** When both sides are done they have seen the same messages, hold the same transcript, and have
      made all the derivations. */
  lemma CompletionAgrees(k: Crypto, clientAuth: bool, steps: seq<Step>)
    requires k.Lawful() && Run(k, Start(clientAuth), steps).client.pc == CDone
    requires Run(k, Start(clientAuth), steps).server.pc == SDone
    ensures var n := Run(k, Start(clientAuth), steps);
      && n.client.seen == n.server.seen && n.client.transcript == n.server.transcript && n.toServer == n.toClient == []
      && n.client.log.Keys * n.server.log.Keys >=
         {HandshakeKeys, ServerFinishedMac, ApplicationKeys, ClientFinishedMac, ResumptionSecret}
  {
    hide Run, LogOk, KeysAt, At, T, Refused, ServerLogs, WfView, PhaseOf;
    var n := Run(k, Start(clientAuth), steps);
    RunInv(k, clientAuth, steps);
    var c, s := n.client.seen, n.server.seen;
    if c <= s {
      assert s[..|c|] == c;
      CompleteIsWhole(k, s, |c|);
    }
    if s <= c {
      assert c[..|s|] == s;
      CompleteIsWhole(k, c, |s|);
    }
  }

  /** Nothing follows a complete view. */
  lemma CompleteIsWhole(k: Crypto, view: seq<Bytes>, i: nat)
    requires WfView(k, view) && i <= |view|
    ensures PhaseOf(k, view[..i]) == Complete ==> i == |view|
  {
    hide WfView, PhaseOf, WfMsg;
    WfPrefix(k, view, i);
  }

  // ---- What a Finished proves, whatever was delivered before it ----

  lemma FinishedSoundBytes(m: Bytes, data: Bytes)
    requires |data| < 0x100_0000
    ensures Typ(m, FINISHED) && ReadFinished(m) == Some(data) <==> WriteFinished(data) == Some(m)
  {
    SentFinished(data);
    if Typ(m, FINISHED) && ReadFinished(m) == Some(data) {
      ReadPrefixedSound(3, m[1..]);
      assert m[1..] == Uint(3, |data|) + data + [] == Uint(3, |data|) + data;
      assert m == [m[0]] + m[1..];
    }
  }

  /** In any state and for any bytes: the client takes in a server Finished exactly when it is the one for its
      own keys and transcript, and the server a client Finished exactly when it is the one it computed. */
  lemma FinishedAcceptedExactly(k: Crypto, c: Client, s: Server, m: Bytes)
    requires k.Lawful() && c.pc == CWaitFinished && s.pc == SWaitFinished && |s.clientFinished| < 0x100_0000
    ensures !ClientTakes(k, c, m).pc.CFailed? <==>
            WriteFinished(k.mac(k.derive(ServerHandshake, c.hsAt), c.transcript)) == Some(m)
    ensures !ServerTakes(k, s, m).pc.SFailed? <==> WriteFinished(s.clientFinished) == Some(m)
  {
    hide WriteFinished, ReadFinished;
    var data := Finished(k, ServerHandshake, c.hsAt, c.transcript);
    FinishedSize(k, ServerHandshake, c.hsAt, c.transcript);
    SentFinished(data);
    FinishedSoundBytes(m, data);
    FinishedSoundBytes(m, s.clientFinished);
  }
}
