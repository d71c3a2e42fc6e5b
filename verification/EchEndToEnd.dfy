/** From the client's inner hello to the server's answer: the sealed payload in the marshalled outer
    hello, what the server makes of the bytes it receives, and the binder it then checks. */
module EchEndToEnd {
  import opened Wire
  import opened ClientHello
  import opened Ech
  import opened EchRoundTrip
  import opened EchAccept
  import opened EchBinder
  import opened EchSeal
  import opened EchOuterTypes
  import opened EchServer

  // ---- The outer hello around a payload ----

  /** The extensions of the outer hello with this ECH payload. */
  function OuterExts(pre: seq<RawExt>, header: Bytes, payload: Bytes, post: seq<RawExt>): (r: seq<RawExt>)
  {
    pre + [RawExt(ENCRYPTED_CLIENT_HELLO, header + Uint(2, |payload|) + payload)] + post
  }

  lemma OuterTypes(pre: seq<RawExt>, header: Bytes, p: Bytes, q: Bytes, post: seq<RawExt>)
    ensures Types(OuterExts(pre, header, p, post)) == Types(OuterExts(pre, header, q, post))
  {
  }

  lemma OuterLookup(pre: seq<RawExt>, header: Bytes, p: Bytes, q: Bytes, post: seq<RawExt>, t: nat)
    requires t != ENCRYPTED_CLIENT_HELLO
    ensures Lookup(OuterExts(pre, header, p, post), t) == Lookup(OuterExts(pre, header, q, post), t)
  {
    var e := RawExt(ENCRYPTED_CLIENT_HELLO, header + Uint(2, |p|) + p);
    var g := RawExt(ENCRYPTED_CLIENT_HELLO, header + Uint(2, |q|) + q);
    LookupAppend(pre + [e], post, t);
    LookupAppend(pre + [g], post, t);
    LookupAppend(pre, [e], t);
    LookupAppend(pre, [g], t);
  }

  lemma OuterStillOk(pre: seq<RawExt>, header: Bytes, p: Bytes, q: Bytes, post: seq<RawExt>)
    requires ExtsOk(OuterExts(pre, header, p, post))
    ensures ExtsOk(OuterExts(pre, header, q, post))
  {
    OuterTypes(pre, header, p, q, post);
    var x, y := OuterExts(pre, header, p, post), OuterExts(pre, header, q, post);
    forall i | 0 <= i < |y| ensures ExtOk(y[i], i == |y| - 1) {
      assert ExtOk(x[i], i == |x| - 1);
      if i != |pre| { assert x[i] == y[i]; }
    }
  }

  /** A marshalled outer hello that the server can parse. */
  lemma OuterReceived(f: Front, exts: seq<RawExt>, o: Bytes)
    requires WriteHello(f, exts) == Some(o) && ReadAll(ReadU16, f.suites).Some? && ExtsOk(exts)
    ensures Parsed(o).Some? && ReceivedOuter(Parsed(o).value, exts) && Parsed(o).value.sessionId == f.sessionId
  {
    ParsedWritten(f, exts);
    var extBytes := WriteAll(WriteExt, exts).value;
    var block := Prefixed(2, extBytes).value;
    HelloBytes(f, exts);
    FrontReadsBack(f, block);
    ReadPrefixedWritten(2, extBytes, []);
    assert block == Uint(2, |extBytes|) + extBytes + [];
    ExtsReadBack(exts);
  }

  /** The outer hello without its four-byte header, up to the payload. */
  function BeforePayload(f: Front, pre: seq<RawExt>, header: Bytes, n: nat, post: seq<RawExt>): (r: Bytes)
    requires WriteFront(f).Some? && WriteAll(WriteExt, pre).Some? && WriteAll(WriteExt, post).Some?
  {
    var before := BytesBefore(f, pre, ENCRYPTED_CLIENT_HELLO, |header| + 2 + n, post);
    before[4..] + header + Uint(2, n)
  }

  lemma OuterBytes(f: Front, pre: seq<RawExt>, header: Bytes, p: Bytes, post: seq<RawExt>, o: Bytes)
    requires WriteHello(f, OuterExts(pre, header, p, post)) == Some(o)
    ensures WriteFront(f).Some? && WriteAll(WriteExt, pre).Some? && WriteAll(WriteExt, post).Some? && |o| >= 4
    ensures o[4..] == BeforePayload(f, pre, header, |p|, post) + p + WriteAll(WriteExt, post).value
  {
    hide WriteHello, WriteAll, WriteFront, Uint, BytesBefore;
    var d := header + Uint(2, |p|) + p;
    HelloAround(f, pre, ENCRYPTED_CLIENT_HELLO, d, post, o);
    var before := BytesBefore(f, pre, ENCRYPTED_CLIENT_HELLO, |d|, post);
    DropFour(before, header, Uint(2, |p|), p, WriteAll(WriteExt, post).value);
  }

  lemma DropFour(before: Bytes, header: Bytes, len: Bytes, p: Bytes, y: Bytes)
    requires |before| >= 4
    ensures (before + (header + len + p) + y)[4..] == before[4..] + header + len + p + y
  {
  }

  /** The outer hello: what the client writes around the encrypted_client_hello extension, and the
      configuration, suite and encapsulated key that stand in it before the payload. */
  datatype Envelope = Envelope(f: Front, pre: seq<RawExt>, configId: nat, kdf: nat, aead: nat, encap: Bytes,
                               post: seq<RawExt>)
  {
    function Header(): (h: Bytes)
    {
      match OuterHeader(configId, kdf, aead, encap)
      case Some(h) => h
      case None => []
    }

    function Exts(payload: Bytes): (r: seq<RawExt>) { OuterExts(pre, Header(), payload, post) }

    /** o is the outer hello with this payload, and the server can parse it. */
    ghost predicate Sends(payload: Bytes, o: Bytes)
    {
      && OuterHeader(configId, kdf, aead, encap).Some? && WriteHello(f, Exts(payload)) == Some(o)
      && ExtsOk(Exts(payload)) && ReadAll(ReadU16, f.suites).Some?
    }

    /** The first place where the payload's bytes occur in the hello is where the payload stands; when
        the payload is all zero, the place does not matter. */
    predicate PayloadFirst(payload: Bytes, o: Bytes)
    {
      && WriteFront(f).Some? && WriteAll(WriteExt, pre).Some? && WriteAll(WriteExt, post).Some? && |o| >= 4
      && (|| FirstIndex(o[4..], payload, 0) == Some(|BeforePayload(f, pre, Header(), |payload|, post)|)
          || AllZero(payload))
    }

    /** Key k opens the payload under this associated data, and no earlier key opens it. */
    ghost predicate Sealed(keys: seq<EchKey>, k: nat, aad: Bytes, payload: Bytes, encoded: Bytes)
    {
      && k < |keys| && (forall key | key in keys :: key.usable)
      && keys[k].open(kdf, aead, encap, aad, payload) == Some(encoded)
      && forall j, a: Bytes | 0 <= j < k :: keys[j].open(kdf, aead, encap, a, payload) == None
    }

    /** No key opens the payload under any other associated data. */
    ghost predicate Authentic(keys: seq<EchKey>, aad: Bytes, payload: Bytes)
    {
      forall key, a: Bytes | key in keys && a != aad :: key.open(kdf, aead, encap, a, payload) == None
    }
  }

  lemma SwapPayload(e: Envelope, p: Bytes, q: Bytes, o: Bytes)
    requires e.Sends(p, o) && |p| == |q|
    ensures WriteHello(e.f, e.Exts(q)).Some? && e.Sends(q, WriteHello(e.f, e.Exts(q)).value)
  {
    OuterStillOk(e.pre, e.Header(), p, q, e.post);
    HelloFits(e.f, e.pre, ENCRYPTED_CLIENT_HELLO, e.Header() + Uint(2, |p|) + p, e.post);
    HelloFits(e.f, e.pre, ENCRYPTED_CLIENT_HELLO, e.Header() + Uint(2, |q|) + q, e.post);
  }

  /** The server reads the configuration, the suite, the encapsulated key and the payload out of the
      bytes it receives. */
  lemma EchFieldParses(e: Envelope, payload: Bytes, o: Bytes)
    requires e.Sends(payload, o)
    ensures Parsed(o).Some? && ReceivedOuter(Parsed(o).value, e.Exts(payload)) && |o| >= 4
    ensures Parsed(o).value.sessionId == e.f.sessionId && Parsed(o).value.original == o
    ensures ParseEchExt(Parsed(o).value.fields.encryptedClientHello) ==
            Outer(e.kdf, e.aead, e.configId, e.encap, payload)
  {
    hide WriteHello, OuterHeader, ParseEchExt, ExtOk;
    OuterReceived(e.f, e.Exts(payload), o);
    ParsedWritten(e.f, e.Exts(payload));
    LookupAt(e.Exts(payload), |e.pre|);
    ExtFits(e, payload, o);
    assert e.Exts(payload)[|e.pre|].typ == ENCRYPTED_CLIENT_HELLO;
    OuterEchExtParses(e.configId, e.kdf, e.aead, e.encap, payload);
  }

  lemma ExtFits(e: Envelope, payload: Bytes, o: Bytes)
    requires e.Sends(payload, o)
    ensures OuterEchExt(e.configId, e.kdf, e.aead, e.encap, payload) == Some(e.Header() + Uint(2, |payload|) + payload)
  {
    hide WriteHello, OuterHeader, ExtsOk, ReadAll, WriteAll, WriteFront, Uint, Pow256, Types;
    Pow256Values();
    var d := e.Header() + Uint(2, |payload|) + payload;
    HelloFits(e.f, e.pre, ENCRYPTED_CLIENT_HELLO, d, e.post);
    Assoc(e.Header(), Uint(2, |payload|), payload);
  }

  /** Both associated data: the client seals against the hello with zeros for its payload, o0, and the
      server authenticates the same bytes of the hello with the payload, o1, exactly when it finds the
      payload in its place. */
  lemma BothAads(e: Envelope, payload: Bytes, o0: Bytes, o1: Bytes)
    requires e.Sends(Zeros(|payload|), o0) && e.Sends(payload, o1)
    ensures |o0| >= 4 && |o1| >= 4
    ensures ServerAad(o1[4..], payload) == o0[4..] <==> e.PayloadFirst(payload, o1)
  {
    hide WriteHello, BytesBefore, ServerAad, FirstIndex, AllZero, ExtsOk, ReadAll;
    OuterBytes(e.f, e.pre, e.Header(), Zeros(|payload|), e.post, o0);
    OuterBytes(e.f, e.pre, e.Header(), payload, e.post, o1);
    AadAgrees(BeforePayload(e.f, e.pre, e.Header(), |payload|, e.post), payload, WriteAll(WriteExt, e.post).value);
  }

  // ---- The payload at the server ----

  /** The client seals encoded against the outer hello with a zero payload and puts the result in place
      of the zeros. The server that receives those bytes parses them, and if it finds the payload in
      its place it rebuilds the inner hello from exactly what was sealed. */
  lemma PayloadOpens(e: Envelope, keys: seq<EchKey>, k: nat, encoded: Bytes, o0: Bytes, payload: Bytes)
    requires |payload| == |encoded| + 16 && e.Sends(Zeros(|payload|), o0) && |o0| >= 4
    requires e.Sealed(keys, k, o0[4..], payload, encoded)
    ensures WriteHello(e.f, e.Exts(payload)).Some?
    ensures var o1 := WriteHello(e.f, e.Exts(payload)).value;
            && e.Sends(payload, o1) && |o1| >= 4 && Parsed(o1).Some? && Parsed(o1).value.original == o1
            && (e.PayloadFirst(payload, o1) ==>
                ProcessEch(Parsed(o1).value, keys) ==
                Rebuild(Parsed(o1).value, Outer(e.kdf, e.aead, e.configId, e.encap, payload), encoded))
  {
    hide WriteHello, Parsed, ParseEchExt, ServerAad, Rebuild, OuterHeader, Envelope.PayloadFirst, ExtsOk, ReadAll;
    SwapPayload(e, Zeros(|payload|), payload, o0);
    var o1 := WriteHello(e.f, e.Exts(payload)).value;
    EchFieldParses(e, payload, o1);
    BothAads(e, payload, o0, o1);
    if e.PayloadFirst(payload, o1) {
      KeysDecide(Parsed(o1).value, Outer(e.kdf, e.aead, e.configId, e.encap, payload), keys, k);
    }
  }

  /** If the payload's bytes stand earlier in the hello, no key opens it, and the server goes on with the
      outer hello as if it had not been offered ECH. */
  lemma PayloadMissed(e: Envelope, keys: seq<EchKey>, k: nat, encoded: Bytes, o0: Bytes, payload: Bytes, o1: Bytes)
    requires |payload| == |encoded| + 16 && e.Sends(Zeros(|payload|), o0) && e.Sends(payload, o1) && |o0| >= 4
    requires e.Sealed(keys, k, o0[4..], payload, encoded) && e.Authentic(keys, o0[4..], payload)
    requires !e.PayloadFirst(payload, o1)
    ensures Parsed(o1).Some? && |Parsed(o1).value.original| >= 4
    ensures ProcessEch(Parsed(o1).value, keys) == KeepOuter(false)
  {
    hide WriteHello, Parsed, ParseEchExt, ServerAad, Rebuild, OuterHeader, Envelope.PayloadFirst, ExtsOk, ReadAll;
    EchFieldParses(e, payload, o1);
    BothAads(e, payload, o0, o1);
    KeysDecide(Parsed(o1).value, Outer(e.kdf, e.aead, e.configId, e.encap, payload), keys, |keys|);
  }

  /** An extension in front of encrypted_client_hello with the payload for its data is such a case. */
  lemma CopyIsFirst(e: Envelope, i: nat, payload: Bytes, o: Bytes)
    requires e.Sends(payload, o) && i < |e.pre| && e.pre[i].data == payload && !AllZero(payload)
    ensures !e.PayloadFirst(payload, o)
  {
    hide WriteHello, WriteAll, ExtsOk, ReadAll, WriteFront, AllZero, OuterHeader, BytesBefore, BeforePayload, Uint,
      OccursAt;
    var mine := RawExt(ENCRYPTED_CLIENT_HELLO, e.Header() + Uint(2, |payload|) + payload);
    var x, rest := e.pre[i], e.pre[i + 1..] + [mine] + e.post;
    assert e.Exts(payload) == e.pre[..i] + [RawExt(x.typ, x.data)] + rest;
    HelloAround(e.f, e.pre[..i], x.typ, x.data, rest, o);
    OuterBytes(e.f, e.pre, e.Header(), payload, e.post, o);
    ExtsAround(e.pre[i + 1..], mine.typ, mine.data, e.post);
    OccursAfter(BytesBefore(e.f, e.pre[..i], x.typ, |x.data|, rest), payload, WriteAll(WriteExt, rest).value);
  }

  lemma OccursAfter(a: Bytes, p: Bytes, b: Bytes)
    requires |a| >= 4
    ensures OccursAt((a + p + b)[4..], p, |a| - 4)
  {
    assert (a + p + b)[4..] == a[4..] + p + b;
  }

  // ---- A sealed payload the server does not open ----

  function Sevens(n: nat): (p: Bytes)
    ensures |p| == n && forall i | 0 <= i < n :: p[i] == 7
  {
    seq(n, _ => 7)
  }

  /** A hello whose GREASE extension happens to carry the bytes the payload will have. */
  function CopyingEnvelope(payload: Bytes): (e: Envelope)
  {
    Envelope(Front(Zeros(34), [], Uint(2, 0x1301), [0]), [RawExt(0x0a0a, payload)], 1, 1, 1, [], [])
  }

  lemma CopyingSends(payload: Bytes, q: Bytes)
    requires |payload| == |q| < 0x4000
    ensures var e := CopyingEnvelope(payload);
            WriteHello(e.f, e.Exts(q)).Some? && e.Sends(q, WriteHello(e.f, e.Exts(q)).value)
  {
    Pow256Values();
    var e := CopyingEnvelope(payload);
    assert OuterHeader(1, 1, 1, []).Some? && |e.Header()| == 8;
    CopyingExtOk(payload, q);
    assert WriteAll(WriteU16, [0x1301]) == Some(Uint(2, 0x1301) + []);
    U16sReadBack([0x1301]);
    assert WriteAll(WriteExt, e.pre) == Some(WriteExt(e.pre[0]).value + []);
    HelloFits(e.f, e.pre, ENCRYPTED_CLIENT_HELLO, e.Header() + Uint(2, |q|) + q, e.post);
  }

  lemma CopyingExtOk(payload: Bytes, q: Bytes)
    ensures ExtsOk(CopyingEnvelope(payload).Exts(q))
  {
    hide OuterHeader, Uint, Lookup;
    var exts := CopyingEnvelope(payload).Exts(q);
    assert |exts| == 2 && exts[0].typ == 0x0a0a && exts[1].typ == ENCRYPTED_CLIENT_HELLO;
  }

  /** The promise that the server opens what the client sealed is false: for every encoding short enough
      to send there are an outer hello and a key under which it does not. */
  lemma SealedButMissed(encoded: Bytes)
    requires |encoded| < 0x3000
    ensures exists e: Envelope, key: EchKey, payload: Bytes, o0: Bytes, o1: Bytes ::
              && |payload| == |encoded| + 16 && e.Sends(Zeros(|payload|), o0) && e.Sends(payload, o1) && |o0| >= 4
              && e.Sealed([key], 0, o0[4..], payload, encoded) && e.Authentic([key], o0[4..], payload)
              && Parsed(o1).Some? && |Parsed(o1).value.original| >= 4
              && ProcessEch(Parsed(o1).value, [key]) == KeepOuter(false)
  {
    hide WriteHello, Parsed, ProcessEch, OuterHeader, ExtsOk, ReadAll, Envelope.PayloadFirst;
    var payload := Sevens(|encoded| + 16);
    var e := CopyingEnvelope(payload);
    CopyingSends(payload, Zeros(|payload|));
    CopyingSends(payload, payload);
    var o0, o1 := WriteHello(e.f, e.Exts(Zeros(|payload|))).value, WriteHello(e.f, e.Exts(payload)).value;
    EchFieldParses(e, Zeros(|payload|), o0);
    var aad := o0[4..];
    var key := EchKey(true, (_, _, _, a, p) => if a == aad && p == payload then Some(encoded) else None);
    assert payload[0] == 7;
    CopyIsFirst(e, 0, payload, o1);
    PayloadMissed(e, [key], 0, encoded, o0, payload, o1);
  }

  // ---- The plain client ----

  /** The client of ech.go: the list is scanned from the outer hello as it is marshalled without its ECH
      payload (and perhaps without the extension at all). The server then uses exactly the inner hellos
      that are acceptable, and refuses every other with illegal_parameter. */
  lemma ScannedOfferAnswered(m: Hello, maxNameLength: nat, e: Envelope, f0: Front, ech: seq<RawExt>, draft: Bytes,
                             keys: seq<EchKey>, k: nat, o0: Bytes, payload: Bytes)
    requires |draft| >= 4 && SplitHello(draft) == Some((f0, e.pre + ech + e.post))
    requires |ech| <= 1 && forall x | x in ech :: x.typ == ENCRYPTED_CLIENT_HELLO
    requires EncodeInner(m, maxNameLength, ScannedTypes(draft[4..])).Some? && m.fields.encryptedClientHello != []
    requires var encoded := EncodeInner(m, maxNameLength, ScannedTypes(draft[4..])).value;
             && |payload| == |encoded| + 16 && e.Sends(Zeros(|payload|), o0) && |o0| >= 4
             && e.Sealed(keys, k, o0[4..], payload, encoded)
    ensures WriteHello(e.f, e.Exts(payload)).Some?
    ensures var o1, raw := WriteHello(e.f, e.Exts(payload)).value, e.Exts(payload);
            var listed := Listed(ScannedTypes(draft[4..]));
            && Parsed(o1).Some? && |Parsed(o1).value.original| >= 4
            && (e.PayloadFirst(payload, o1) ==>
                ProcessEch(Parsed(o1).value, keys) ==
                if Acceptable(m, raw, listed) && Expanded(m, Parsed(o1).value, raw, listed).Some?
                then UseInner(Accepted(m, Parsed(o1).value, raw, listed), e.configId, e.kdf, e.aead)
                else Abort(IllegalParameter))
  {
    hide WriteHello, Parsed, EncodeInner, ProcessEch, OuterHeader, ExtsOk, ReadAll, Envelope.PayloadFirst, Acceptable,
      Expanded, Accepted, SplitHello, ScannedTypes, Listed, Reconstruct;
    var list := ScannedTypes(draft[4..]);
    PayloadOpens(e, keys, k, EncodeInner(m, maxNameLength, list).value, o0, payload);
    var o1 := WriteHello(e.f, e.Exts(payload)).value;
    EchFieldParses(e, payload, o1);
    ScannedInOrder(draft, f0, e.pre, ech, e.post,
                   RawExt(ENCRYPTED_CLIENT_HELLO, e.Header() + Uint(2, |payload|) + payload));
    InnerHelloAccepted(m, maxNameLength, list, Parsed(o1).value, e.Exts(payload));
  }

  // ---- The resuming client ----

  /** What a UConn is about to send: its inner hello; its extensions when it lists them, the types it
      then drops from the list, and its extensions when it writes them, with the ECH extension at
      position at. */
  datatype Offer = Offer(m: Hello, maxNameLength: nat, before: seq<Slot>, dropped: set<nat>, after: seq<Slot>, at: nat,
                         f: Front, configId: nat, kdf: nat, aead: nat, encap: Bytes)
  {
    ghost predicate Ready()
    {
      && at < |after| && after[at].Some? && after[at].value.typ == ENCRYPTED_CLIENT_HELLO
      && SameReferences(before, after)
    }

    function OuterList(): (ts: seq<nat>) { Kept(SlotTypes(before), dropped) }

    function Outside(): (e: Envelope)
      requires at < |after|
    {
      Envelope(f, Written(after[..at]), configId, kdf, aead, encap, Written(after[at + 1..]))
    }

    ghost predicate OnePsk(hashLen: nat)
    {
      && EncodeInner(m, maxNameLength, OuterList()).Some? && m.fields.encryptedClientHello != []
      && |m.fields.pskIdentities| == 1 && |m.fields.pskBinders| == 1 && |m.fields.pskBinders[0]| == hashLen > 0
    }
  }

  lemma OfferInOrder(x: Offer, payload: Bytes)
    requires x.Ready()
    ensures IsSubseq(Listed(x.OuterList()), Types(x.Outside().Exts(payload)))
  {
    hide Compressible, Listed, SlotTypes, Kept, IsSubseq, OuterHeader;
    SlotsInOrder(x.before, x.after, x.dropped);
    var ech := x.after[x.at];
    assert x.after == x.after[..x.at] + [ech] + x.after[x.at + 1..];
    WrittenConcat(x.after[..x.at] + [ech], x.after[x.at + 1..]);
    WrittenConcat(x.after[..x.at], [ech]);
    assert Written([ech]) == [ech.value];
    assert Types(Written(x.after)) == Types(x.Outside().Exts(payload));
  }

  lemma OffersAgree(e: Envelope, listed: seq<nat>, p: Bytes, q: Bytes, o0: Bytes, o1: Bytes)
    requires e.Sends(p, o0) && e.Sends(q, o1) && ENCRYPTED_CLIENT_HELLO !in listed
    ensures Parsed(o0).Some? && ReceivedOuter(Parsed(o0).value, e.Exts(p))
    ensures Parsed(o1).Some? && ReceivedOuter(Parsed(o1).value, e.Exts(q))
    ensures AgreeOn(Parsed(o0).value, e.Exts(p), Parsed(o1).value, e.Exts(q), listed)
  {
    EchFieldParses(e, p, o0);
    EchFieldParses(e, q, o1);
    OuterTypes(e.pre, e.Header(), p, q, e.post);
    forall t | t in listed ensures Lookup(e.Exts(p), t) == Lookup(e.Exts(q), t) {
      OuterLookup(e.pre, e.Header(), p, q, e.post, t);
    }
  }

  /** The client fixes its binder against the outer hello with a zero payload, seals the fixed inner hello
      against the same bytes, and sends the hello with the sealed payload. The server parses what it
      receives, opens the payload with its key if it finds it in its place, and holds an inner hello
      whose binder is correct. */
  lemma ServerAcceptsBinder(x: Offer, mac: Bytes -> Bytes, hashLen: nat, keys: seq<EchKey>, k: nat,
                            o0: Bytes, m': Hello, encoded: Bytes, payload: Bytes)
    requires x.Ready() && x.OnePsk(hashLen) && forall b: Bytes :: |mac(b)| == hashLen
    requires |payload| == |EncodeInner(x.m, x.maxNameLength, x.OuterList()).value| + 16
    requires x.Outside().Sends(Zeros(|payload|), o0) && |o0| >= 4 && Parsed(o0).Some?
    requires DecodeInner(Parsed(o0).value, EncodeInner(x.m, x.maxNameLength, x.OuterList()).value).Some?
    requires (m', encoded) == Fixed(x.m, x.maxNameLength, x.OuterList(), Parsed(o0).value, mac)
    requires x.Outside().Sealed(keys, k, o0[4..], payload, encoded)
    ensures WriteHello(x.f, x.Outside().Exts(payload)).Some?
    ensures var o1 := WriteHello(x.f, x.Outside().Exts(payload)).value;
            && Parsed(o1).Some? && |Parsed(o1).value.original| >= 4
            && (x.Outside().PayloadFirst(payload, o1) ==>
                var answer := ProcessEch(Parsed(o1).value, keys);
                && answer.UseInner? && BinderPasses(answer.hello, mac)
                && answer == UseInner(answer.hello, x.configId, x.kdf, x.aead)
                && answer.hello.fields.pskIdentities == x.m.fields.pskIdentities)
  {
    hide EncodeInner, WriteHello, Reconstruct, Parsed, ProcessEch, OuterHeader, ExtsOk, ReadAll, Envelope.PayloadFirst,
      Acceptable, Expanded, Listed, Written, SlotTypes, Kept, BindersLen, Fixed;
    var e, list, zeros := x.Outside(), x.OuterList(), Zeros(|payload|);
    OfferInOrder(x, zeros);
    ListedCompressible(list);
    NeverListed();
    OffersAgree(e, Listed(list), zeros, zeros, o0, o0);
    FixedIsAccepted(x.m, x.maxNameLength, list, mac, hashLen, Parsed(o0).value, e.Exts(zeros));
    PayloadOpens(e, keys, k, encoded, o0, payload);
    var o1 := WriteHello(e.f, e.Exts(payload)).value;
    OffersAgree(e, Listed(list), zeros, payload, o0, o1);
    PayloadDoesNotMatter(m', x.maxNameLength, list, Parsed(o0).value, e.Exts(zeros), Parsed(o1).value, e.Exts(payload));
    OfferInOrder(x, payload);
    InnerHelloAccepted(m', x.maxNameLength, list, Parsed(o1).value, e.Exts(payload));
  }
}
