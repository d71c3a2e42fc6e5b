/** In every run of the two endpoints the transcripts agree wherever they are used. */
module HandshakeAgree {
  import opened Wire
  import opened Certificate
  import opened Handshake

  // ---- The order of messages, and what is hashed, from outside both programs ----

  datatype Phase =
    | Hello1 | Hello(retried: bool) | Hello2 | Params(psk: bool) | SCert(requested: bool) | SVerify(requested: bool)
    | ServerFin(requested: bool) | CCert | CVerify | ClientFin(direct: bool) | Complete | Bad

  predicate EmptyChain(m: Bytes) { ReadCertMsg(m).Some? && ReadCertMsg(m).value.cert.chain == [] }

  function Advance(k: Crypto, p: Phase, m: Bytes): (r: Phase)
  {
    match p
    case Hello1 => Hello(false)
    case Hello(retried) => if !k.isRetry(m) then Params(k.usesPsk(m)) else if retried then Bad else Hello2
    case Hello2 => Hello(true)
    case Params(psk) => if psk then ServerFin(false) else SCert(false)
    case SCert(requested) =>
      if !Typ(m, CERTIFICATE_REQUEST) then SVerify(requested) else if requested then Bad else SCert(true)
    case SVerify(requested) => ServerFin(requested)
    case ServerFin(requested) => if requested then CCert else ClientFin(true)
    case CCert => if EmptyChain(m) then ClientFin(false) else CVerify
    case CVerify => ClientFin(false)
    case ClientFin(_) => Complete
    case _ => Bad
  }

  function PhaseOf(k: Crypto, view: seq<Bytes>): (r: Phase)
  {
    if view == [] then Hello1 else Advance(k, PhaseOf(k, view[..|view| - 1]), view[|view| - 1])
  }

  predicate ClientsTurn(p: Phase) { p.Hello1? || p.Hello2? || p.CCert? || p.CVerify? || p.ClientFin? }

  /** The transcript of section 4.4.1 of RFC 8446: all messages in order, the first hello replaced by
      its hash when a HelloRetryRequest follows it. */
  function T(k: Crypto, view: seq<Bytes>): (r: Bytes)
  {
    if view == [] then [] else
    var front, m := view[..|view| - 1], view[|view| - 1];
    if |front| == 1 && k.isRetry(m) then MessageHash(k, front[0]) + m else T(k, front) + m
  }

  /** The point in the message order a use belongs to. */
  predicate Marks(p: Phase, u: Use)
  {
    match u
    case HandshakeKeys => p.Params?
    case ServerSignature => p.SVerify?
    case ServerFinishedMac => p.ServerFin?
    case ApplicationKeys => p.CCert? || p == ClientFin(true)
    case ClientSignature => p.CVerify?
    case ClientFinishedMac => p.ClientFin?
    case ResumptionSecret => p.Complete?
  }

  /** The transcript at the point of a use, once the messages have reached it. */
  function At(k: Crypto, view: seq<Bytes>, u: Use): (r: Option<Bytes>)
  {
    if view == [] then None
    else if Marks(PhaseOf(k, view), u) then Some(T(k, view))
    else At(k, view[..|view| - 1], u)
  }

  function Rank(p: Phase): (r: nat)
  {
    match p
    case Hello1 => 0
    case Hello(retried) => if retried then 3 else 1
    case Hello2 => 2
    case Params(_) => 4
    case SCert(requested) => if requested then 6 else 5
    case SVerify(_) => 7
    case ServerFin(_) => 8
    case CCert => 9
    case CVerify => 10
    case ClientFin(_) => 11
    case Complete => 12
    case Bad => 13
  }

  function UseRank(u: Use): (r: nat)
  {
    match u
    case HandshakeKeys => 4
    case ServerSignature => 7
    case ServerFinishedMac => 8
    case ApplicationKeys => 9
    case ClientSignature => 10
    case ClientFinishedMac => 11
    case ResumptionSecret => 12
  }

  lemma AdvanceRank(k: Crypto, p: Phase, m: Bytes, u: Use)
    requires Advance(k, p, m) != Bad
    ensures Rank(p) < Rank(Advance(k, p, m))
    ensures Marks(p, u) ==> Rank(p) >= UseRank(u)
    ensures Rank(p) >= UseRank(u) ==> !Marks(Advance(k, p, m), u)
  {
  }

  lemma {:induction false} AtRank(k: Crypto, view: seq<Bytes>, u: Use)
    requires PhaseOf(k, view) != Bad && At(k, view, u).Some?
    ensures Rank(PhaseOf(k, view)) >= UseRank(u)
  {
    hide T, Advance;
    var front, m := view[..|view| - 1], view[|view| - 1];
    if !Marks(PhaseOf(k, view), u) {
      NotBad(k, PhaseOf(k, front), m);
      AtRank(k, front, u);
      AdvanceRank(k, PhaseOf(k, front), m, u);
    } else {
      MarksRank(PhaseOf(k, view), u);
    }
  }

  lemma NotBad(k: Crypto, p: Phase, m: Bytes)
    requires Advance(k, p, m) != Bad
    ensures p != Bad
  {
  }

  lemma MarksRank(p: Phase, u: Use)
    requires Marks(p, u)
    ensures Rank(p) >= UseRank(u)
  {
  }

  /** Each use has one point: later messages do not change its transcript. */
  lemma AtNext(k: Crypto, view: seq<Bytes>, m: Bytes, u: Use)
    requires PhaseOf(k, view + [m]) != Bad
    ensures PhaseOf(k, view) != Bad && PhaseOf(k, view + [m]) == Advance(k, PhaseOf(k, view), m)
    ensures At(k, view, u).Some? ==> At(k, view + [m], u) == At(k, view, u)
    ensures At(k, view, u).None? ==>
            At(k, view + [m], u) == if Marks(PhaseOf(k, view + [m]), u) then Some(T(k, view + [m])) else None
  {
    hide T, Advance, Marks;
    assert (view + [m])[..|view|] == view;
    NotBad(k, PhaseOf(k, view), m);
    AdvanceRank(k, PhaseOf(k, view), m, u);
    if At(k, view, u).Some? { AtRank(k, view, u); }
  }

  lemma TNext(k: Crypto, view: seq<Bytes>, m: Bytes)
    ensures T(k, view + [m]) == if |view| == 1 && k.isRetry(m) then MessageHash(k, view[0]) + m else T(k, view) + m
  {
    assert (view + [m])[..|view|] == view;
  }

  // ---- Well-formed message orders ----

  ghost predicate WfMsg(k: Crypto, view: seq<Bytes>, m: Bytes)
  {
    match PhaseOf(k, view)
    case Hello1 => Typ(m, CLIENT_HELLO)
    case Hello2 => Typ(m, CLIENT_HELLO)
    case Hello(retried) => Typ(m, SERVER_HELLO)
    case Params(_) => Typ(m, ENCRYPTED_EXTENSIONS)
    case SCert(_) =>
      Typ(m, CERTIFICATE_REQUEST) || exists cm: CertMsg :: WriteCertMsg(cm) == Some(m) && cm.cert.chain != []
    case SVerify(_) => exists v: CertVerify :: WriteCertVerify(v) == Some(m) && k.verify(ServerSide, T(k, view), v)
    case ServerFin(_) => FinishedIs(k, view, ServerHandshake, m)
    case CCert => exists cm: CertMsg :: WriteCertMsg(cm) == Some(m) && (cm.cert.chain == [] <==> EmptyChain(m))
    case CVerify => exists v: CertVerify :: WriteCertVerify(v) == Some(m) && k.verify(ClientSide, T(k, view), v)
    case ClientFin(_) => FinishedIs(k, view, ClientHandshake, m)
    case _ => false
  }

  predicate FinishedIs(k: Crypto, view: seq<Bytes>, s: Secret, m: Bytes)
  {
    && At(k, view, HandshakeKeys).Some?
    && WriteFinished(Finished(k, s, At(k, view, HandshakeKeys).value, T(k, view))) == Some(m)
  }

  ghost predicate WfView(k: Crypto, view: seq<Bytes>)
  {
    view == [] ||
    (WfView(k, view[..|view| - 1]) && WfMsg(k, view[..|view| - 1], view[|view| - 1]) && PhaseOf(k, view) != Bad)
  }

  lemma WfNext(k: Crypto, view: seq<Bytes>, m: Bytes)
    requires WfView(k, view) && WfMsg(k, view, m) && Advance(k, PhaseOf(k, view), m) != Bad
    ensures WfView(k, view + [m])
    ensures PhaseOf(k, view + [m]) == Advance(k, PhaseOf(k, view), m)
    ensures T(k, view + [m]) == if |view| == 1 && k.isRetry(m) then MessageHash(k, view[0]) + m else T(k, view) + m
    ensures forall u :: At(k, view + [m], u) ==
              if At(k, view, u).Some? then At(k, view, u)
              else if Marks(PhaseOf(k, view + [m]), u) then Some(T(k, view + [m])) else None
  {
    hide WfMsg, Advance, Marks, T;
    assert (view + [m])[..|view|] == view;
    TNext(k, view, m);
    forall u { AtNext(k, view, m, u); }
  }

  lemma {:induction false} WfPrefix(k: Crypto, view: seq<Bytes>, i: nat)
    requires WfView(k, view) && i <= |view|
    ensures WfView(k, view[..i])
    ensures i < |view| ==> WfMsg(k, view[..i], view[i])
    ensures i < |view| ==> PhaseOf(k, view[..i + 1]) == Advance(k, PhaseOf(k, view[..i]), view[i]) != Bad
    decreases |view|
  {
    hide WfMsg, Advance;
    if i == |view| {
      assert view[..i] == view;
    } else if i == |view| - 1 {
      assert view[..i + 1] == view;
    } else {
      var front := view[..|view| - 1];
      WfPrefix(k, front, i);
      assert front[..i] == view[..i] && front[..i + 1] == view[..i + 1] && front[i] == view[i];
    }
  }

  lemma {:induction false} AtStable(k: Crypto, view: seq<Bytes>, i: nat, u: Use)
    requires WfView(k, view) && i <= |view| && At(k, view[..i], u).Some?
    ensures At(k, view, u) == At(k, view[..i], u)
    decreases |view|
  {
    hide WfMsg, Advance, T, Marks;
    if i == |view| {
      assert view[..i] == view;
    } else {
      var front, m := view[..|view| - 1], view[|view| - 1];
      assert view == front + [m] && front[..i] == view[..i];
      AtStable(k, front, i, u);
      AtNext(k, front, m, u);
    }
  }
}
