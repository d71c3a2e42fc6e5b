/** The TLS 1.3 handshake of a client and a server of this library over two FIFO channels that deliver
    every message unmodified. The handshake secret both ends get from the key exchange and the optional
    pre-shared key is taken as common, so key derivation is a function of a label and a transcript. */
module Handshake {
  import opened Wire
  import opened Certificate

  datatype Side = ClientSide | ServerSide
  datatype Secret = ClientHandshake | ServerHandshake

  /** Every use of a transcript: traffic secrets, signatures, Finished MACs, resumption. */
  datatype Use = HandshakeKeys | ServerSignature | ServerFinishedMac | ApplicationKeys
               | ClientSignature | ClientFinishedMac | ResumptionSecret

  datatype Crypto = Crypto(
    hash: Bytes -> Bytes,
    derive: (Secret, Bytes) -> Bytes,              // a handshake traffic secret
    mac: (Bytes, Bytes) -> Bytes,                  // finishedHash
    verify: (Side, Bytes, CertVerify) -> bool,     // the signature check of one side over a transcript
    isRetry: Bytes -> bool,                        // a ServerHello with the HelloRetryRequest random
    usesPsk: Bytes -> bool)                        // a ServerHello with a selected identity
  {
    ghost predicate Lawful()
    {
      forall secret: Bytes, t: Bytes :: |mac(secret, t)| < 0x100_0000
    }
  }

  const CLIENT_HELLO: Byte := 1
  const SERVER_HELLO: Byte := 2
  const ENCRYPTED_EXTENSIONS: Byte := 8
  const CERTIFICATE_REQUEST: Byte := 13
  const MESSAGE_HASH: Byte := 254

  predicate Typ(m: Bytes, t: Byte) { m != [] && m[0] == t }

  /** The synthetic message that replaces the first ClientHello after a HelloRetryRequest. */
  function MessageHash(k: Crypto, hello: Bytes): (r: Bytes)
  {
    var h := k.hash(hello);
    [MESSAGE_HASH, 0, 0] + Uint(1, |h|) + h
  }

  function Finished(k: Crypto, s: Secret, keys: Bytes, transcript: Bytes): (r: Bytes)
  {
    k.mac(k.derive(s, keys), transcript)
  }

  datatype Failure = Unexpected | BadMessage | SecondRetry | EmptyCertificate | BadSignature | BadFinished

  // ---- The client ----

  datatype ClientPc = CStart | CWaitHello(retried: bool) | CSendHello2 | CWaitParameters | CWaitCert | CWaitVerify
                    | CWaitFinished | CSendCert | CSendVerify | CSendFinished | CDone | CFailed(why: Failure)

  /** seen lists the messages sent and taken in so far, in order. hsAt is the transcript the handshake
      keys were derived from. */
  datatype Client = Client(pc: ClientPc, seen: seq<Bytes>, hello: Bytes, transcript: Bytes, hsAt: Bytes,
                           usingPsk: bool, certReq: bool, log: map<Use, Bytes>)
  {
    function Fail(why: Failure): (r: Client) { this.(pc := CFailed(why)) }
    function Add(m: Bytes, hashed: Bytes, pc: ClientPc): (r: Client)
    {
      this.(seen := seen + [m], transcript := transcript + hashed, pc := pc)
    }
    function Use(u: Use): (r: Client) { this.(log := log[u := transcript]) }
  }

  function ClientServerHello(k: Crypto, c: Client, retried: bool, m: Bytes): (r: Client)
  {
    var t := if retried then c.transcript else c.hello;
    if !Typ(m, SERVER_HELLO) then c.Fail(Unexpected)
    else if k.isRetry(m) then
      if retried then c.Fail(SecondRetry)
      else c.(seen := c.seen + [m], transcript := MessageHash(k, t) + m, pc := CSendHello2)
    else
      var d := c.(seen := c.seen + [m], transcript := t + m, pc := CWaitParameters, usingPsk := k.usesPsk(m),
                  hsAt := t + m);
      d.Use(HandshakeKeys)
  }

  function ClientCertificate(k: Crypto, c: Client, m: Bytes): (r: Client)
  {
    if Typ(m, CERTIFICATE_REQUEST) && !c.certReq then c.Add(m, m, CWaitCert).(certReq := true)
    else if !Typ(m, CERTIFICATE) then c.Fail(Unexpected)
    else match ReadCertMsg(m)
      case None => c.Fail(BadMessage)
      case Some(cert) =>
        if cert.cert.chain == [] then c.Fail(EmptyCertificate)
        else match WriteCertMsg(cert)
          case None => c.Fail(BadMessage)
          case Some(again) => c.Add(m, again, CWaitVerify)
  }

  function ClientVerify(k: Crypto, c: Client, m: Bytes): (r: Client)
  {
    if !Typ(m, CERTIFICATE_VERIFY) then c.Fail(Unexpected)
    else match ReadCertVerify(m)
      case None => c.Fail(BadMessage)
      case Some(v) =>
        if !k.verify(ServerSide, c.transcript, v) then c.Fail(BadSignature)
        else match WriteCertVerify(v)
          case None => c.Fail(BadMessage)
          case Some(again) => c.Use(ServerSignature).Add(m, again, CWaitFinished)
  }

  function ClientFinish(k: Crypto, c: Client, m: Bytes): (r: Client)
  {
    if !Typ(m, FINISHED) then c.Fail(Unexpected)
    else match ReadFinished(m)
      case None => c.Fail(BadMessage)
      case Some(data) =>
        if data != Finished(k, ServerHandshake, c.hsAt, c.transcript) then c.Fail(BadFinished)
        else match WriteFinished(data)
          case None => c.Fail(BadMessage)
          case Some(again) =>
            c.Use(ServerFinishedMac).Add(m, again, if c.certReq then CSendCert else CSendFinished).Use(ApplicationKeys)
  }

  /** The client takes the next message in. */
  function ClientTakes(k: Crypto, c: Client, m: Bytes): (r: Client)
  {
    match c.pc
    case CWaitHello(retried) => ClientServerHello(k, c, retried, m)
    case CWaitParameters =>
      if !Typ(m, ENCRYPTED_EXTENSIONS) then c.Fail(Unexpected)
      else c.Add(m, m, if c.usingPsk then CWaitFinished else CWaitCert)
    case CWaitCert => ClientCertificate(k, c, m)
    case CWaitVerify => ClientVerify(k, c, m)
    case CWaitFinished => ClientFinish(k, c, m)
    case _ => c
  }

  // ---- The server ----

  datatype ServerPc =
    | SWaitHello | SHaveHello(retried: bool) | SWaitHello2 | SSendParameters | SSendRequest | SSendCert | SSendVerify
    | SSendFinished | SWaitCert | SWaitVerify | SWaitFinished | SDone | SFailed(why: Failure)

  datatype Server = Server(pc: ServerPc, seen: seq<Bytes>, hello: Bytes, transcript: Bytes, hsAt: Bytes,
                           usingPsk: bool, clientAuth: bool, clientFinished: Bytes, log: map<Use, Bytes>)
  {
    function Fail(why: Failure): (r: Server) { this.(pc := SFailed(why)) }
    function Add(m: Bytes, hashed: Bytes, pc: ServerPc): (r: Server)
    {
      this.(seen := seen + [m], transcript := transcript + hashed, pc := pc)
    }
    function Use(u: Use): (r: Server) { this.(log := log[u := transcript]) }
    predicate RequestsCert() { clientAuth && !usingPsk }
  }

  /** sendSessionTickets: the client's Finished is computed before it arrives, and the transcript is
      rolled forward over it for the resumption secret. */
  function Precompute(k: Crypto, s: Server): (r: Server)
  {
    var data := Finished(k, ClientHandshake, s.hsAt, s.transcript);
    match WriteFinished(data)
    case None => s.Fail(BadMessage)
    case Some(m) =>
      var t := s.Use(ClientFinishedMac).(clientFinished := data, transcript := s.transcript + m, pc := SWaitFinished);
      t.Use(ResumptionSecret)
  }

  function ServerCertificate(k: Crypto, s: Server, m: Bytes): (r: Server)
  {
    if !Typ(m, CERTIFICATE) then s.Fail(Unexpected)
    else match ReadCertMsg(m)
      case None => s.Fail(BadMessage)
      case Some(cert) =>
        if cert.cert.chain == [] then Precompute(k, s.Add(m, m, SWaitFinished)) else s.Add(m, m, SWaitVerify)
  }

  function ServerVerify(k: Crypto, s: Server, m: Bytes): (r: Server)
  {
    if !Typ(m, CERTIFICATE_VERIFY) then s.Fail(Unexpected)
    else match ReadCertVerify(m)
      case None => s.Fail(BadMessage)
      case Some(v) =>
        if !k.verify(ClientSide, s.transcript, v) then s.Fail(BadSignature)
        else match WriteCertVerify(v)
          case None => s.Fail(BadMessage)
          case Some(again) => Precompute(k, s.Use(ClientSignature).Add(m, again, SWaitFinished))
  }

  function ServerFinish(s: Server, m: Bytes): (r: Server)
  {
    if !Typ(m, FINISHED) then s.Fail(Unexpected)
    else match ReadFinished(m)
      case None => s.Fail(BadMessage)
      case Some(data) => if data != s.clientFinished then s.Fail(BadFinished) else s.(seen := s.seen + [m], pc := SDone)
  }

  function ServerTakes(k: Crypto, s: Server, m: Bytes): (r: Server)
  {
    match s.pc
    case SWaitHello =>
      if Typ(m, CLIENT_HELLO) then s.(seen := s.seen + [m], hello := m, pc := SHaveHello(false)) else s.Fail(Unexpected)
    case SWaitHello2 =>
      if Typ(m, CLIENT_HELLO) then s.(seen := s.seen + [m], hello := m, pc := SHaveHello(true)) else s.Fail(Unexpected)
    case SWaitCert => ServerCertificate(k, s, m)
    case SWaitVerify => ServerVerify(k, s, m)
    case SWaitFinished => ServerFinish(s, m)
    case _ => s
  }

  // ---- Sending ----

  /** What an endpoint does on its own: the arguments are whatever its configuration, its randomness and
      what it has received make it choose. */
  datatype Step =
    | ClientReads | SendHello(m: Bytes) | ClientCert(cert: CertMsg) | ClientSign(v: CertVerify) | ClientFinishes
    | ServerReads | Retry(m: Bytes) | Accept(m: Bytes) | Parameters(m: Bytes) | Request(m: Bytes)
    | ServerCert(cert: CertMsg) | ServerSign(v: CertVerify) | ServerFinishes

  /** The client's next state and the message it sends, None when the step is not one it can take. */
  function ClientSends(k: Crypto, c: Client, step: Step): (r: Option<(Client, Bytes)>)
  {
    match (c.pc, step)
    case (CStart, SendHello(m)) =>
      if Typ(m, CLIENT_HELLO) then Some((c.(seen := [m], hello := m, pc := CWaitHello(false)), m)) else None
    case (CSendHello2, SendHello(m)) =>
      if Typ(m, CLIENT_HELLO) then Some((c.Add(m, m, CWaitHello(true)), m)) else None
    case (CSendCert, ClientCert(cert)) =>
      var m :- WriteCertMsg(cert);
      Some((c.Add(m, m, if cert.cert.chain == [] then CSendFinished else CSendVerify), m))
    case (CSendVerify, ClientSign(v)) =>
      var m :- WriteCertVerify(v);
      if k.verify(ClientSide, c.transcript, v) then Some((c.Use(ClientSignature).Add(m, m, CSendFinished), m)) else None
    case (CSendFinished, ClientFinishes) =>
      var m :- WriteFinished(Finished(k, ClientHandshake, c.hsAt, c.transcript));
      Some((c.Use(ClientFinishedMac).Add(m, m, CDone).Use(ResumptionSecret), m))
    case _ => None
  }

  function ServerSends(k: Crypto, s: Server, step: Step): (r: Option<(Server, Bytes)>)
  {
    match (s.pc, step)
    case (SHaveHello(retried), Retry(m)) =>
      if !retried && Typ(m, SERVER_HELLO) && k.isRetry(m)
      then
        var t := MessageHash(k, s.transcript + s.hello) + m;
        Some((s.(seen := s.seen + [m], transcript := t, pc := SWaitHello2), m))
      else None
    case (SHaveHello(_), Accept(m)) =>
      if Typ(m, SERVER_HELLO) && !k.isRetry(m)
      then
        var t := s.transcript + s.hello + m;
        var s' := s.(seen := s.seen + [m], transcript := t, pc := SSendParameters, usingPsk := k.usesPsk(m), hsAt := t);
        Some((s'.Use(HandshakeKeys), m))
      else None
    case (SSendParameters, Parameters(m)) =>
      if Typ(m, ENCRYPTED_EXTENSIONS)
      then
        var next := if s.usingPsk then SSendFinished else if s.clientAuth then SSendRequest else SSendCert;
        Some((s.Add(m, m, next), m))
      else None
    case (SSendRequest, Request(m)) =>
      if Typ(m, CERTIFICATE_REQUEST) then Some((s.Add(m, m, SSendCert), m)) else None
    case (SSendCert, ServerCert(cert)) =>
      var m :- WriteCertMsg(cert);
      if cert.cert.chain != [] then Some((s.Add(m, m, SSendVerify), m)) else None
    case (SSendVerify, ServerSign(v)) =>
      var m :- WriteCertVerify(v);
      if k.verify(ServerSide, s.transcript, v) then Some((s.Use(ServerSignature).Add(m, m, SSendFinished), m)) else None
    case (SSendFinished, ServerFinishes) =>
      var m :- WriteFinished(Finished(k, ServerHandshake, s.hsAt, s.transcript));
      var t := s.Use(ServerFinishedMac).Add(m, m, SWaitCert).Use(ApplicationKeys);
      Some((if s.RequestsCert() then t else Precompute(k, t), m))
    case _ => None
  }

  // ---- The joint system ----

  datatype Net = Net(client: Client, server: Server, toServer: seq<Bytes>, toClient: seq<Bytes>)

  function Start(clientAuth: bool): (r: Net)
  {
    Net(Client(CStart, [], [], [], [], false, false, map[]),
        Server(SWaitHello, [], [], [], [], false, clientAuth, [], map[]), [], [])
  }

  /** One step; a step that is not enabled changes nothing. A message that makes its reader fail stays
      unread. */
  function Apply(k: Crypto, n: Net, step: Step): (r: Net)
  {
    match step
    case ClientReads =>
      if n.toClient == [] then n else
      var c := ClientTakes(k, n.client, n.toClient[0]);
      n.(client := c, toClient := if |c.seen| > |n.client.seen| then n.toClient[1..] else n.toClient)
    case ServerReads =>
      if n.toServer == [] then n else
      var s := ServerTakes(k, n.server, n.toServer[0]);
      n.(server := s, toServer := if |s.seen| > |n.server.seen| then n.toServer[1..] else n.toServer)
    case _ =>
      match ClientSends(k, n.client, step)
      case Some((c, m)) => n.(client := c, toServer := n.toServer + [m])
      case None =>
        match ServerSends(k, n.server, step)
        case Some((s, m)) => n.(server := s, toClient := n.toClient + [m])
        case None => n
  }

  function Run(k: Crypto, n: Net, steps: seq<Step>): (r: Net)
  {
    if steps == [] then n else Apply(k, Run(k, n, steps[..|steps| - 1]), steps[|steps| - 1])
  }
}
