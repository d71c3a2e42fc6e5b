/** The TLS 1.3 Certificate, CertificateVerify and Finished messages, and when re-marshalling a parsed
    message gives back the bytes it came from. */
module Certificate {
  import opened Wire
  import opened ClientHello
  import opened HelloTruncation

  const CERTIFICATE: Byte := 11
  const CERTIFICATE_VERIFY: Byte := 15
  const FINISHED: Byte := 20
  const STATUS_TYPE_OCSP: Byte := 1

  /** A certificate chain with its leaf's stapled data; None is Go's nil. */
  datatype Cert = Cert(chain: seq<Bytes>, staple: Option<Bytes>, scts: Option<seq<Bytes>>)

  /** One entry of the certificate list on the wire. */
  datatype Entry = Entry(cert: Bytes, exts: seq<RawExt>)

  // ---- Writing ----

  function WriteSct(sct: Bytes): (r: Option<Bytes>) { Prefixed(2, sct) }

  function StapleExt(staple: Option<Bytes>): (r: Option<seq<RawExt>>)
  {
    if staple.None? then Some([]) else
    var d :- Prefixed(3, staple.value);
    Some([RawExt(STATUS_REQUEST, [STATUS_TYPE_OCSP] + d)])
  }

  function SctExt(scts: Option<seq<Bytes>>): (r: Option<seq<RawExt>>)
  {
    if scts.None? then Some([]) else
    var list :- WriteAll(WriteSct, scts.value);
    var d :- Prefixed(2, list);
    Some([RawExt(SCT, d)])
  }

  function LeafExts(c: Cert): (r: Option<seq<RawExt>>)
  {
    var a :- StapleExt(c.staple);
    var b :- SctExt(c.scts);
    Some(a + b)
  }

  function WriteEntry(e: Entry): (r: Option<Bytes>)
  {
    var cert :- Prefixed(3, e.cert);
    var exts :- WriteAll(WriteExt, e.exts);
    var d :- Prefixed(2, exts);
    Some(cert + d)
  }

  function Plain(certs: seq<Bytes>): (r: seq<Entry>)
    ensures |r| == |certs| && forall i | 0 <= i < |r| :: r[i] == Entry(certs[i], [])
  {
    seq(|certs|, i requires 0 <= i < |certs| => Entry(certs[i], []))
  }

  /** Only the leaf carries extensions. */
  function Entries(c: Cert): (r: Option<seq<Entry>>)
  {
    if c.chain == [] then Some([]) else
    var exts :- LeafExts(c);
    Some([Entry(c.chain[0], exts)] + Plain(c.chain[1..]))
  }

  function WriteCert(c: Cert): (r: Option<Bytes>)
  {
    var es :- Entries(c);
    var list :- WriteAll(WriteEntry, es);
    Prefixed(3, list)
  }

  // ---- Reading ----

  function ReadSct(s: Bytes): (r: Option<(Bytes, Bytes)>)
  {
    var (sct, rest) :- ReadPrefixed(2, s);
    if sct == [] then None else Some((sct, rest))
  }

  function StapleOf(d: Bytes): (r: Option<Bytes>)
  {
    if d == [] || d[0] != STATUS_TYPE_OCSP then None else
    var staple :- Whole(3, d[1..]);
    if staple == [] then None else Some(staple)
  }

  function SctsOf(d: Bytes): (r: Option<seq<Bytes>>)
  {
    var list :- Whole(2, d);
    if list == [] then None else ReadAll(ReadSct, list)
  }

  /** One leaf extension: a staple replaces an earlier one, timestamps are appended to earlier ones,
      any other extension is ignored. */
  function Absorb(c: Cert, e: RawExt): (r: Option<Cert>)
  {
    if e.typ == STATUS_REQUEST then
      var staple :- StapleOf(e.data);
      Some(c.(staple := Some(staple)))
    else if e.typ == SCT then
      var more :- SctsOf(e.data);
      Some(c.(scts := Some((if c.scts.Some? then c.scts.value else []) + more)))
    else Some(c)
  }

  function AbsorbAll(c: Cert, exts: seq<RawExt>): (r: Option<Cert>)
    decreases exts
  {
    if exts == [] then Some(c) else
    var c' :- Absorb(c, exts[0]);
    AbsorbAll(c', exts[1..])
  }

  function ReadEntry(s: Bytes): (r: Option<(Entry, Bytes)>)
  {
    var (cert, r1) :- ReadPrefixed(3, s);
    var (eb, r2) :- ReadPrefixed(2, r1);
    var exts :- ReadAll(ReadExt, eb);
    Some((Entry(cert, exts), r2))
  }

  function Certs(es: seq<Entry>): (r: seq<Bytes>)
    ensures |r| == |es| && forall i | 0 <= i < |r| :: r[i] == es[i].cert
  {
    seq(|es|, i requires 0 <= i < |es| => es[i].cert)
  }

  function FromEntries(es: seq<Entry>): (r: Option<Cert>)
  {
    if es == [] then Some(Cert([], None, None)) else AbsorbAll(Cert(Certs(es), None, None), es[0].exts)
  }

  function ReadCert(s: Bytes): (r: Option<(Cert, Bytes)>)
  {
    var (list, rest) :- ReadPrefixed(3, s);
    var es :- ReadAll(ReadEntry, list);
    var c :- FromEntries(es);
    Some((c, rest))
  }

  // ---- The round trip, with its exact domain ----

  predicate CertOk(c: Cert)
  {
    c.chain == [] ||
    (&& (c.staple.Some? ==> c.staple.value != [])
     && (c.scts.Some? ==> c.scts.value != [] && forall x | x in c.scts.value :: x != []))
  }

  /** Without a leaf there is nothing to hang stapled data on. */
  function Norm(c: Cert): (r: Cert)
  {
    if c.chain == [] then Cert([], None, None) else c
  }

  lemma StapleReadsBack(staple: Bytes)
    requires Prefixed(3, staple).Some?
    ensures StapleOf([STATUS_TYPE_OCSP] + Prefixed(3, staple).value) == if staple == [] then None else Some(staple)
  {
    var d := Prefixed(3, staple).value;
    assert ([STATUS_TYPE_OCSP] + d)[1..] == d == Uint(3, |staple|) + staple + [];
    ReadPrefixedWritten(3, staple, []);
  }

  lemma SctsReadBack(scts: seq<Bytes>)
    requires WriteAll(WriteSct, scts).Some? && Prefixed(2, WriteAll(WriteSct, scts).value).Some?
    ensures SctsOf(Prefixed(2, WriteAll(WriteSct, scts).value).value) ==
            if scts != [] && forall x | x in scts :: x != [] then Some(scts) else None
  {
    var list := WriteAll(WriteSct, scts).value;
    assert Prefixed(2, list).value == Uint(2, |list|) + list + [];
    ReadPrefixedWritten(2, list, []);
    forall x | x in scts && WriteSct(x).Some?
      ensures if x != [] then ReadsBack(ReadSct, WriteSct(x).value, x) else Refuses(ReadSct, WriteSct(x).value)
    {
      forall rest: Bytes { ReadPrefixedWritten(2, x, rest); }
    }
    ReadAllWritten(ReadSct, WriteSct, (x: Bytes) => x != [], scts);
    WriteAllNonEmpty(WriteSct, scts);
  }

  lemma LeafReadsBack(c: Cert)
    requires LeafExts(c).Some? && c.chain != []
    ensures AbsorbAll(Cert(c.chain, None, None), LeafExts(c).value) == if CertOk(c) then Some(c) else None
  {
    hide StapleOf, SctsOf, Prefixed, WriteAll;
    var start := Cert(c.chain, None, None);
    var a, b := StapleExt(c.staple).value, SctExt(c.scts).value;
    if c.staple.Some? { StapleReadsBack(c.staple.value); }
    if c.scts.Some? { SctsReadBack(c.scts.value); }
    assert |a| == (if c.staple.Some? then 1 else 0) && |b| == (if c.scts.Some? then 1 else 0);
    AbsorbAppend(start, a, b);
    assert forall x: seq<Bytes> :: [] + x == x;
  }

  lemma AbsorbAppend(c: Cert, a: seq<RawExt>, b: seq<RawExt>)
    requires |a| <= 1
    ensures AbsorbAll(c, a + b) == if AbsorbAll(c, a).Some? then AbsorbAll(AbsorbAll(c, a).value, b) else None
  {
    if a == [] {
      assert a + b == b;
    } else {
      assert (a + b)[1..] == b && a[1..] == [];
    }
  }

  lemma EntryReadsBack(e: Entry)
    requires WriteEntry(e).Some?
    ensures ReadsBack(ReadEntry, WriteEntry(e).value, e)
  {
    hide ReadExt, WriteExt, WriteAll, ReadAll, ReadPrefixed;
    var eb := WriteAll(WriteExt, e.exts).value;
    ExtsReadBack(e.exts);
    forall rest: Bytes ensures ReadEntry(WriteEntry(e).value + rest) == Some((e, rest)) {
      var tail := Uint(2, |eb|) + eb + rest;
      ReadPrefixedWritten(3, e.cert, tail);
      ReadPrefixedWritten(2, eb, rest);
      assert WriteEntry(e).value + rest == Uint(3, |e.cert|) + e.cert + tail;
    }
  }

  lemma EntriesReadBack(es: seq<Entry>)
    requires WriteAll(WriteEntry, es).Some?
    ensures ReadAll(ReadEntry, WriteAll(WriteEntry, es).value) == Some(es)
  {
    forall e | e in es && WriteEntry(e).Some? ensures ReadsBack(ReadEntry, WriteEntry(e).value, e) {
      EntryReadsBack(e);
    }
    ReadAllWritten(ReadEntry, WriteEntry, (e: Entry) => true, es);
  }

  /** unmarshalCertificate on what marshalCertificate wrote, whatever follows: the chain and stapled
      data come back exactly when no stapled item is present but empty, and otherwise it fails. */
  lemma CertReadsBack(c: Cert, rest: Bytes)
    requires WriteCert(c).Some?
    ensures ReadCert(WriteCert(c).value + rest) == if CertOk(c) then Some((Norm(c), rest)) else None
  {
    hide WriteAll, ReadAll, ReadPrefixed, LeafExts, AbsorbAll;
    var es := Entries(c).value;
    var list := WriteAll(WriteEntry, es).value;
    ReadPrefixedWritten(3, list, rest);
    EntriesReadBack(es);
    if c.chain != [] {
      LeafReadsBack(c);
      assert Certs(es) == c.chain;
    }
  }

  // ---- The Certificate message ----

  datatype CertMsg = CertMsg(cert: Cert, ocspStapling: bool, scts: bool)

  function Stripped(m: CertMsg): (r: Cert)
  {
    Cert(m.cert.chain, if m.ocspStapling then m.cert.staple else None, if m.scts then m.cert.scts else None)
  }

  function WriteCertMsg(m: CertMsg): (r: Option<Bytes>)
  {
    var body :- WriteCert(Stripped(m));
    var p :- Prefixed(3, [0] + body);
    Some([CERTIFICATE] + p)
  }

  function ReadCertMsg(data: Bytes): (r: Option<CertMsg>)
  {
    var (_, s) :- ReadBytes(4, data);
    var (context, s1) :- ReadPrefixed(1, s);
    if context != [] then None else
    var (c, rest) :- ReadCert(s1);
    if rest == [] then Some(CertMsg(c, c.staple.Some?, c.scts.Some?)) else None
  }

  lemma ContextEmpty(body: Bytes)
    ensures ReadPrefixed(1, [0] + body) == Some(([], body))
  {
    assert ([0] + body)[..1] == [0] && ([0] + body)[1..] == body;
    assert UintVal([0]) == 0 by { assert [0][..0] == []; }
  }

  /** The receiver's message is the sender's, stripped of what was not asked for; it exists exactly
      when no stapled item sent was empty, and marshalling it again gives the bytes received. */
  lemma CertMsgRemarshals(m: CertMsg)
    requires WriteCertMsg(m).Some?
    ensures var data := WriteCertMsg(m).value;
      && (ReadCertMsg(data).Some? <==> CertOk(Stripped(m)))
      && (ReadCertMsg(data).Some? ==>
          ReadCertMsg(data).value.cert == Norm(Stripped(m)) && WriteCertMsg(ReadCertMsg(data).value) == Some(data))
  {
    hide WriteAll, ReadAll, ReadPrefixed, LeafExts, ReadCert;
    var c := Stripped(m);
    var body := WriteCert(c).value;
    var data := WriteCertMsg(m).value;
    assert data[4..] == [0] + body;
    ContextEmpty(body);
    CertReadsBack(c, []);
    assert body + [] == body;
    if CertOk(c) {
      var m' := ReadCertMsg(data).value;
      assert Stripped(m') == Norm(c);
    }
  }

  // ---- Bytes from any sender ----

  /** What marshalCertificate can produce: the leaf has at most a status_request and then at most an
      SCT extension, later certificates have none. */
  predicate CanonicalEntries(es: seq<Entry>)
  {
    && (forall i | 1 <= i < |es| :: es[i].exts == [])
    && (es != [] ==> CanonicalExts(es[0].exts))
  }

  predicate CanonicalExts(exts: seq<RawExt>)
  {
    || exts == []
    || (|exts| == 1 && exts[0].typ in {STATUS_REQUEST, SCT})
    || (|exts| == 2 && exts[0].typ == STATUS_REQUEST && exts[1].typ == SCT)
  }

  lemma StapleSound(d: Bytes)
    requires StapleOf(d).Some?
    ensures StapleExt(StapleOf(d)) == Some([RawExt(STATUS_REQUEST, d)])
  {
    ReadPrefixedSound(3, d[1..]);
    var staple := StapleOf(d).value;
    assert d[1..] == Uint(3, |staple|) + staple + [] == Uint(3, |staple|) + staple;
    assert d == [d[0]] + d[1..];
  }

  lemma SctsSound(d: Bytes)
    requires SctsOf(d).Some?
    ensures SctExt(SctsOf(d)) == Some([RawExt(SCT, d)])
  {
    var list := Whole(2, d).value;
    ReadPrefixedSound(2, d);
    assert d == Uint(2, |list|) + list + [] == Uint(2, |list|) + list;
    forall t: Bytes | ReadSct(t).Some?
      ensures var (x, rest) := ReadSct(t).value; WriteSct(x).Some? && t == WriteSct(x).value + rest
    {
      ReadPrefixedSound(2, t);
    }
    WriteAllOfRead(ReadSct, WriteSct, list);
  }

  lemma LeafExtsOfAbsorbed(certs: seq<Bytes>, exts: seq<RawExt>)
    requires AbsorbAll(Cert(certs, None, None), exts).Some?
    ensures AbsorbAll(Cert(certs, None, None), exts).value.chain == certs
    ensures LeafExts(AbsorbAll(Cert(certs, None, None), exts).value) == Some(exts) <==> CanonicalExts(exts)
  {
    hide StapleOf, SctsOf, Prefixed, WriteAll;
    AbsorbKeepsChain(Cert(certs, None, None), exts);
    var c := AbsorbAll(Cert(certs, None, None), exts).value;
    assert forall x: seq<Bytes> :: [] + x == x;
    if CanonicalExts(exts) && exts != [] {
      var e := exts[0];
      if e.typ == STATUS_REQUEST { StapleSound(e.data); } else { SctsSound(e.data); }
      if |exts| == 1 {
        assert exts == [e] && exts[1..] == [];
        assert [] + [e] == [e] && [e] + [] == [e];
      } else {
        SctsSound(exts[1].data);
        AbsorbTwo(Cert(certs, None, None), e, exts[1]);
        assert exts == [e, exts[1]] == [e] + [exts[1]];
      }
    }
  }

  lemma AbsorbTwo(c: Cert, e1: RawExt, e2: RawExt)
    ensures AbsorbAll(c, [e1, e2]) == if Absorb(c, e1).Some? then Absorb(Absorb(c, e1).value, e2) else None
  {
    assert [e1, e2][1..] == [e2];
    if Absorb(c, e1).Some? { AbsorbOne(Absorb(c, e1).value, e2); }
  }

  lemma AbsorbOne(c: Cert, e: RawExt)
    ensures AbsorbAll(c, [e]) == Absorb(c, e)
  {
    assert [e][1..] == [];
    if Absorb(c, e).Some? { assert AbsorbAll(Absorb(c, e).value, []) == Absorb(c, e); }
  }

  lemma {:induction false} AbsorbKeepsChain(c: Cert, exts: seq<RawExt>)
    requires AbsorbAll(c, exts).Some?
    ensures AbsorbAll(c, exts).value.chain == c.chain
    decreases exts
  {
    if exts != [] { AbsorbKeepsChain(Absorb(c, exts[0]).value, exts[1..]); }
  }

  lemma ReadEntriesSound(list: Bytes)
    requires ReadAll(ReadEntry, list).Some?
    ensures WriteAll(WriteEntry, ReadAll(ReadEntry, list).value) == Some(list)
  {
    forall t: Bytes | ReadEntry(t).Some?
      ensures var (e, rest) := ReadEntry(t).value; WriteEntry(e).Some? && t == WriteEntry(e).value + rest
    {
      EntrySound(t);
    }
    WriteAllOfRead(ReadEntry, WriteEntry, list);
  }

  lemma EntrySound(t: Bytes)
    requires ReadEntry(t).Some?
    ensures var (e, rest) := ReadEntry(t).value; WriteEntry(e).Some? && t == WriteEntry(e).value + rest
  {
    hide WriteAll, ReadAll, ReadExt, WriteExt;
    ReadPrefixedSound(3, t);
    var (cert, r1) := ReadPrefixed(3, t).value;
    ReadPrefixedSound(2, r1);
    var (eb, r2) := ReadPrefixed(2, r1).value;
    ReadExtsSound(eb);
    assert t == Uint(3, |cert|) + cert + (Uint(2, |eb|) + eb) + r2;
  }

  /** Parsed entries marshal back to the list they came from exactly when they are canonical. */
  lemma EntriesRemarshal(es: seq<Entry>)
    requires FromEntries(es).Some?
    ensures Entries(FromEntries(es).value) == Some(es) <==> CanonicalEntries(es)
  {
    hide AbsorbAll, LeafExts, CanonicalExts;
    if es != [] {
      var c := FromEntries(es).value;
      LeafExtsOfAbsorbed(Certs(es), es[0].exts);
      var rest := Plain(c.chain[1..]);
      assert es == [es[0]] + es[1..];
      if LeafExts(c) == Some(es[0].exts) {
        assert Entries(c).value == [Entry(c.chain[0], es[0].exts)] + rest;
        assert [Entry(c.chain[0], es[0].exts)] + rest == es <==> rest == es[1..] by {
          assert ([Entry(c.chain[0], es[0].exts)] + rest)[1..] == rest;
        }
        assert rest == es[1..] <==> forall i | 1 <= i < |es| :: es[i].exts == [] by {
          if rest == es[1..] { forall i | 1 <= i < |es| ensures es[i].exts == [] { assert es[1..][i - 1] == es[i]; } }
        }
      }
    }
  }

  /** What the message body, after its 4-byte header, holds when it parses. */
  function EntriesIn(data: Bytes): (r: seq<Entry>)
    requires ReadCertMsg(data).Some?
  {
    ReadAll(ReadEntry, ReadPrefixed(3, ReadPrefixed(1, data[4..]).value.1).value.0).value
  }

  /** For bytes from any sender: hashing the re-marshalled message is hashing the received bytes exactly
      when the header is right and the extensions are those this library would have written. */
  lemma RemarshalExact(data: Bytes)
    requires ReadCertMsg(data).Some?
    ensures WriteCertMsg(ReadCertMsg(data).value) == Some(data) <==>
            && data[0] == CERTIFICATE && data[1..4] == Uint(3, |data| - 4) && |data| - 4 < Pow256(3)
            && CanonicalEntries(EntriesIn(data))
  {
    hide WriteAll, ReadAll, AbsorbAll, LeafExts, Absorb, CanonicalEntries, Pow256, Uint, UintVal;
    var s := data[4..];
    var (context, s1) := ReadPrefixed(1, s).value;
    var (list, rest) := ReadPrefixed(3, s1).value;
    var es := EntriesIn(data);
    var c := FromEntries(es).value;
    assert ReadCertMsg(data) == Some(CertMsg(c, c.staple.Some?, c.scts.Some?)) &&
      Stripped(ReadCertMsg(data).value) == c;
    ReadPrefixedSound(1, s);
    ZeroByte();
    assert s == [0] + s1;
    ReadPrefixedSound(3, s1);
    assert s1 == Uint(3, |list|) + list;
    ReadEntriesSound(list);
    EntriesRemarshal(es);
    hide ReadPrefixed, FromEntries, Entries;
    BodyRemarshal(c, es, list);
    HeaderMatches(data, s1, WriteCert(c));
  }

  lemma ZeroByte()
    ensures Uint(1, 0) == [0]
  {
    assert Uint(0, 0) == [];
  }

  /** The certificate list written again is the list read exactly when the entries are. */
  lemma BodyRemarshal(c: Cert, es: seq<Entry>, list: Bytes)
    requires WriteAll(WriteEntry, es) == Some(list) && Prefixed(3, list).Some?
    ensures WriteCert(c) == Prefixed(3, list) <==> Entries(c) == Some(es)
  {
    hide Entries, WriteAll, ReadAll, Uint;
    if Entries(c).Some? && WriteAll(WriteEntry, Entries(c).value).Some? {
      var list' := WriteAll(WriteEntry, Entries(c).value).value;
      EntriesReadBack(es);
      EntriesReadBack(Entries(c).value);
      if Prefixed(3, list') == Prefixed(3, list) {
        assert Prefixed(3, list').value[3..] == list' && Prefixed(3, list).value[3..] == list;
      }
    }
  }

  lemma HeaderMatches(data: Bytes, s1: Bytes, body: Option<Bytes>)
    requires |data| >= 4 && data[4..] == [0] + s1
    ensures (&& body.Some? && Prefixed(3, [0] + body.value).Some?
             && data == [CERTIFICATE] + Prefixed(3, [0] + body.value).value) <==>
            body == Some(s1) && data[0] == CERTIFICATE && data[1..4] == Uint(3, |data| - 4) && |data| - 4 < Pow256(3)
  {
    hide Uint, Pow256;
    assert data == [data[0]] + data[1..4] + data[4..];
    if body.Some? && Prefixed(3, [0] + body.value).Some? {
      var w := [CERTIFICATE] + Prefixed(3, [0] + body.value).value;
      assert w[0] == CERTIFICATE && w[1..4] == Uint(3, 1 + |body.value|) && w[4..] == [0] + body.value;
      assert ([0] + body.value)[1..] == body.value && ([0] + s1)[1..] == s1;
    }
  }

  /** A leaf with an extension this library does not know, as other servers may send: the message is
      accepted, and the re-marshalled bytes differ from those received. */
  lemma UnknownExtensionIsLost(cert: Bytes, e: RawExt, list: Bytes, data: Bytes)
    requires e.typ !in {STATUS_REQUEST, SCT}
    requires WriteAll(WriteEntry, [Entry(cert, [e])]) == Some(list)
    requires data == [CERTIFICATE] + Uint(3, |list| + 4) + ([0] + (Uint(3, |list|) + list)) && |list| < Pow256(3)
    ensures ReadCertMsg(data) == Some(CertMsg(Cert([cert], None, None), false, false))
    ensures WriteCertMsg(ReadCertMsg(data).value) != Some(data)
  {
    hide WriteAll, ReadAll, ReadPrefixed, Uint, Pow256, WriteCertMsg, WriteEntry;
    var es := [Entry(cert, [e])];
    var s1 := Uint(3, |list|) + list;
    assert data[4..] == [0] + s1;
    ContextEmpty(s1);
    EntriesReadBack(es);
    ReadPrefixedWritten(3, list, []);
    assert s1 + [] == s1 && Certs(es) == [cert];
    AbsorbOne(Cert([cert], None, None), e);
    RemarshalExact(data);
    assert EntriesIn(data) == es && es[0].exts == [e];
  }

  // ---- CertificateVerify and Finished ----

  datatype CertVerify = CertVerify(algorithm: nat, signature: Bytes)

  function WriteCertVerify(v: CertVerify): (r: Option<Bytes>)
  {
    var alg :- WriteU16(v.algorithm);
    var sig :- Prefixed(2, v.signature);
    var p :- Prefixed(3, alg + sig);
    Some([CERTIFICATE_VERIFY] + p)
  }

  function ReadCertVerify(data: Bytes): (r: Option<CertVerify>)
  {
    var (_, s) :- ReadBytes(4, data);
    var (alg, s1) :- ReadUint(2, s);
    var sig :- Whole(2, s1);
    Some(CertVerify(alg, sig))
  }

  lemma CertVerifyReadsBack(v: CertVerify)
    requires WriteCertVerify(v).Some?
    ensures ReadCertVerify(WriteCertVerify(v).value) == Some(v)
  {
    Pow256Values();
    hide Pow256;
    var data, sig := WriteCertVerify(v).value, Uint(2, |v.signature|) + v.signature;
    assert data[4..] == Uint(2, v.algorithm) + sig;
    ReadUintWritten(2, v.algorithm, sig);
    ReadPrefixedWritten(2, v.signature, []);
    assert sig == sig + [];
  }

  function WriteFinished(verifyData: Bytes): (r: Option<Bytes>)
  {
    var p :- Prefixed(3, verifyData);
    Some([FINISHED] + p)
  }

  function ReadFinished(data: Bytes): (r: Option<Bytes>)
  {
    var (_, s) :- ReadBytes(1, data);
    Whole(3, s)
  }

  lemma FinishedReadsBack(verifyData: Bytes)
    requires WriteFinished(verifyData).Some?
    ensures ReadFinished(WriteFinished(verifyData).value) == Some(verifyData)
  {
    var p := Prefixed(3, verifyData).value;
    assert ([FINISHED] + p)[1..] == p == Uint(3, |verifyData|) + verifyData + [];
    ReadPrefixedWritten(3, verifyData, []);
  }
}
