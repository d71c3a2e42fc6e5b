/** The session ticket codec: SessionState.Bytes and ParseSessionState. A certificate is its raw bytes;
    valid says which of them the X.509 parser accepts. */
module SessionState {
  import opened Wire
  import opened Certificate
  import opened CertificateReader

  datatype Session = Session(
    version: nat, isClient: bool, cipherSuite: nat, createdAt: nat,  // uint16, uint16, uint64
    secret: Bytes, extra: seq<Bytes>, extMasterSecret: bool, earlyData: bool,
    peer: seq<Bytes>, ocsp: Option<Bytes>, scts: Option<seq<Bytes>>, chains: seq<seq<Bytes>>,
    alpn: Bytes, useBy: nat, ageAdd: nat, ticket: Bytes)             // uint64, uint32

  predicate Typed(s: Session)
  {
    && s.version < 0x1_0000 && s.cipherSuite < 0x1_0000 && s.createdAt < 0x1_0000_0000_0000_0000
    && s.useBy < 0x1_0000_0000_0000_0000 && s.ageAdd < 0x1_0000_0000
  }

  predicate HasExpiry(s: Session) { s.isClient && s.version >= TLS13 }

  // ---- Bytes ----

  function WriteItem(x: Bytes): (r: Option<Bytes>) { Prefixed(3, x) }

  /** A chain is written without its first certificate, which is always the leaf. */
  function WriteChain(chain: seq<Bytes>): (r: Option<Bytes>)
  {
    if chain == [] then None else
    var list :- WriteAll(WriteItem, chain[1..]);
    Prefixed(3, list)
  }

  function Flag(b: bool): (r: Byte) { if b then 1 else 0 }

  function Head(s: Session): (r: Bytes)
  {
    Uint(2, s.version) + Uint(1, if s.isClient then 2 else 1) + Uint(2, s.cipherSuite) + Uint(8, s.createdAt)
  }

  function Secrets(s: Session): (r: Option<Bytes>)
  {
    var secret :- Prefixed(1, s.secret);
    var list :- WriteAll(WriteItem, s.extra);
    var extra :- Prefixed(3, list);
    Some(secret + extra + [Flag(s.extMasterSecret), Flag(s.earlyData)])
  }

  function Tail(s: Session): (r: Option<Bytes>)
  {
    var alpn :- if s.earlyData then Prefixed(1, s.alpn) else Some([]);
    Some(alpn + (if HasExpiry(s) then Uint(8, s.useBy) + Uint(4, s.ageAdd) else []))
  }

  function Encode(s: Session): (r: Option<Bytes>)
  {
    var secrets :- Secrets(s);
    var certs :- WriteCert(Cert(s.peer, s.ocsp, s.scts));
    var list :- WriteAll(WriteChain, s.chains);
    var chains :- Prefixed(3, list);
    var tail :- Tail(s);
    Some(Head(s) + (secrets + (certs + (chains + tail))))
  }

  // ---- ParseSessionState ----

  function ReadItem(s: Bytes): (r: Option<(Bytes, Bytes)>) { ReadPrefixed(3, s) }

  /** The certificates of one chain after the leaf. */
  function ReadChain(s: Bytes): (r: Option<(seq<Bytes>, Bytes)>)
  {
    var (list, rest) :- ReadPrefixed(3, s);
    var certs :- ReadAll(ReadItem, list);
    Some((certs, rest))
  }

  /** The fields before the certificates, in a session with nothing else set. */
  function ReadFixed(data: Bytes): (r: Option<(Session, Bytes)>)
  {
    var (version, s1) :- ReadUint(2, data);
    var (typ, s2) :- ReadUint(1, s1);
    if typ != 1 && typ != 2 then None else
    var (suite, s3) :- ReadUint(2, s2);
    var (createdAt, s4) :- ReadUint(8, s3);
    Some((Session(version, typ == 2, suite, createdAt, [], [], false, false, [], None, None, [], [], 0, 0, []), s4))
  }

  function ReadSecrets(ss: Session, data: Bytes): (r: Option<(Session, Bytes)>)
  {
    var (secret, s1) :- ReadPrefixed(1, data);
    var (extra, s2) :- ReadPrefixed(3, s1);
    var (ems, s3) :- ReadUint(1, s2);
    var (early, s4) :- ReadUint(1, s3);
    var items :- ReadAll(ReadItem, extra);
    if secret == [] || ems > 1 || early > 1 then None else
    Some((ss.(secret := secret, extra := items, extMasterSecret := ems == 1, earlyData := early == 1), s4))
  }

  predicate AllValid(valid: Bytes -> bool, certs: seq<Bytes>) { forall c | c in certs :: valid(c) }

  predicate TailsValid(valid: Bytes -> bool, tails: seq<seq<Bytes>>) { forall t | t in tails :: AllValid(valid, t) }

  function WithLeaf(leaf: Bytes, tails: seq<seq<Bytes>>): (r: seq<seq<Bytes>>)
    ensures |r| == |tails| && forall i | 0 <= i < |r| :: r[i] == [leaf] + tails[i]
  {
    seq(|tails|, i requires 0 <= i < |tails| => [leaf] + tails[i])
  }

  function ReadChains(valid: Bytes -> bool, ss: Session, data: Bytes): (r: Option<(Session, Bytes)>)
  {
    var (cert, s1) :- ReadCert(data);
    if !AllValid(valid, cert.chain) then None else
    var (list, s2) :- ReadPrefixed(3, s1);
    var tails :- ReadAll(ReadChain, list);
    if tails != [] && (cert.chain == [] || !TailsValid(valid, tails)) then None else
    Some((ss.(peer := cert.chain, ocsp := cert.staple, scts := cert.scts,
              chains := if tails == [] then [] else WithLeaf(cert.chain[0], tails)), s2))
  }

  function ReadTail(ss: Session, data: Bytes): (r: Option<Session>)
  {
    var (alpn, s1) :- if ss.earlyData then ReadPrefixed(1, data) else Some(([], data));
    var ss := ss.(alpn := alpn);
    if ss.isClient && ss.peer == [] then None
    else if !HasExpiry(ss) then (if s1 == [] then Some(ss) else None)
    else
      var (useBy, s2) :- ReadUint(8, s1);
      var (ageAdd, s3) :- ReadUint(4, s2);
      if s3 == [] then Some(ss.(useBy := useBy, ageAdd := ageAdd)) else None
  }

  function Parse(valid: Bytes -> bool, data: Bytes): (r: Option<Session>)
  {
    var (a, s1) :- ReadFixed(data);
    var (b, s2) :- ReadSecrets(a, s1);
    var (c, s3) :- ReadChains(valid, b, s2);
    ReadTail(c, s3)
  }

  // ---- The round trip ----

  function Tails(chains: seq<seq<Bytes>>): (r: seq<seq<Bytes>>)
    ensures |r| == |chains| && forall i | 0 <= i < |r| :: r[i] == if chains[i] == [] then [] else chains[i][1..]
  {
    seq(|chains|, i requires 0 <= i < |chains| => if chains[i] == [] then [] else chains[i][1..])
  }

  /** What the format cannot carry is dropped, and every chain starts with the peer's leaf. */
  function Normal(s: Session): (r: Session)
  {
    s.(ocsp := if s.peer == [] then None else s.ocsp,
       scts := if s.peer == [] then None else s.scts,
       chains := if s.peer == [] then [] else WithLeaf(s.peer[0], Tails(s.chains)),
       alpn := if s.earlyData then s.alpn else [],
       useBy := if HasExpiry(s) then s.useBy else 0,
       ageAdd := if HasExpiry(s) then s.ageAdd else 0,
       ticket := [])
  }

  predicate Decodable(valid: Bytes -> bool, s: Session)
  {
    && s.secret != []
    && CertOk(Cert(s.peer, s.ocsp, s.scts))
    && AllValid(valid, s.peer)
    && (s.chains != [] || s.isClient ==> s.peer != [])
    && ChainsValid(valid, s.chains)
  }

  predicate ChainsValid(valid: Bytes -> bool, chains: seq<seq<Bytes>>)
  {
    forall chain | chain in chains :: chain != [] && AllValid(valid, chain[1..])
  }

  lemma ChainsAndTails(valid: Bytes -> bool, chains: seq<seq<Bytes>>)
    requires forall c | c in chains :: c != []
    ensures TailsValid(valid, Tails(chains)) <==> ChainsValid(valid, chains)
  {
    hide AllValid;
    var tails := Tails(chains);
    if TailsValid(valid, tails) {
      forall c | c in chains ensures AllValid(valid, c[1..]) {
        var i :| 0 <= i < |chains| && chains[i] == c;
        assert tails[i] in tails;
      }
    }
    if ChainsValid(valid, chains) {
      forall t | t in tails ensures AllValid(valid, t) {
        var i :| 0 <= i < |tails| && tails[i] == t;
        assert chains[i] in chains;
      }
    }
  }

  lemma FixedReadsBack(s: Session, rest: Bytes)
    requires Typed(s)
    ensures ReadFixed(Head(s) + rest) == Some((Session(s.version, s.isClient, s.cipherSuite, s.createdAt,
                                                       [], [], false, false, [], None, None, [], [], 0, 0, []), rest))
  {
    Pow256Values();
    hide Uint, UintVal, Pow256, ReadUint;
    var typ := if s.isClient then 2 else 1;
    var c := Uint(8, s.createdAt) + rest;
    var b := Uint(2, s.cipherSuite) + c;
    var a := Uint(1, typ) + b;
    ReadUintWritten(2, s.version, a);
    ReadUintWritten(1, typ, b);
    ReadUintWritten(2, s.cipherSuite, c);
    ReadUintWritten(8, s.createdAt, rest);
    assert Head(s) + rest == Uint(2, s.version) + a;
  }

  lemma FlagReads(b: bool, rest: Bytes)
    ensures ReadUint(1, [Flag(b)] + rest) == Some((Flag(b), rest))
  {
    assert ([Flag(b)] + rest)[..1] == [Flag(b)] && ([Flag(b)] + rest)[1..] == rest;
    assert [Flag(b)][..0] == [];
    assert UintVal([Flag(b)]) == Flag(b);
  }

  lemma ItemsReadBack(xs: seq<Bytes>)
    requires WriteAll(WriteItem, xs).Some?
    ensures ReadAll(ReadItem, WriteAll(WriteItem, xs).value) == Some(xs)
  {
    forall x | x in xs && WriteItem(x).Some? ensures ReadsBack(ReadItem, WriteItem(x).value, x) {
      forall rest: Bytes { ReadPrefixedWritten(3, x, rest); }
    }
    ReadAllWritten(ReadItem, WriteItem, (x: Bytes) => true, xs);
  }

  lemma SecretsReadBack(ss: Session, s: Session, rest: Bytes)
    requires Secrets(s).Some?
    ensures ReadSecrets(ss, Secrets(s).value + rest) ==
            if s.secret == [] then None
            else Some((ss.(secret := s.secret, extra := s.extra, extMasterSecret := s.extMasterSecret,
                           earlyData := s.earlyData), rest))
  {
    hide WriteAll, ReadAll, ReadPrefixed, ReadUint, Uint, Pow256;
    var list := WriteAll(WriteItem, s.extra).value;
    var c := [Flag(s.earlyData)] + rest;
    var b := [Flag(s.extMasterSecret)] + c;
    var a := Uint(3, |list|) + list + b;
    ReadPrefixedWritten(1, s.secret, a);
    ReadPrefixedWritten(3, list, b);
    FlagReads(s.extMasterSecret, c);
    FlagReads(s.earlyData, rest);
    ItemsReadBack(s.extra);
    assert Secrets(s).value + rest == Uint(1, |s.secret|) + s.secret + a;
  }

  function WriteTail(t: seq<Bytes>): (r: Option<Bytes>)
  {
    var list :- WriteAll(WriteItem, t);
    Prefixed(3, list)
  }

  /** Writing chains is writing their tails. */
  lemma {:induction false} ChainsAreTails(chains: seq<seq<Bytes>>)
    requires WriteAll(WriteChain, chains).Some?
    ensures WriteAll(WriteTail, Tails(chains)) == WriteAll(WriteChain, chains) && forall c | c in chains :: c != []
  {
    hide WriteItem;
    if chains != [] {
      ChainsAreTails(chains[1..]);
      assert Tails(chains)[1..] == Tails(chains[1..]);
      assert chains == [chains[0]] + chains[1..];
    }
  }

  lemma TailReadsBack(t: seq<Bytes>)
    requires WriteTail(t).Some?
    ensures ReadsBack(ReadChain, WriteTail(t).value, t)
  {
    hide WriteAll, ReadAll, ReadPrefixed;
    var list := WriteAll(WriteItem, t).value;
    ItemsReadBack(t);
    forall rest: Bytes ensures ReadChain(WriteTail(t).value + rest) == Some((t, rest)) {
      ReadPrefixedWritten(3, list, rest);
    }
  }

  lemma ChainsReadBack(chains: seq<seq<Bytes>>)
    requires WriteAll(WriteChain, chains).Some?
    ensures ReadAll(ReadChain, WriteAll(WriteChain, chains).value) == Some(Tails(chains))
    ensures forall c | c in chains :: c != []
  {
    ChainsAreTails(chains);
    forall t | t in Tails(chains) && WriteTail(t).Some? ensures ReadsBack(ReadChain, WriteTail(t).value, t) {
      TailReadsBack(t);
    }
    ReadAllWritten(ReadChain, WriteTail, (t: seq<Bytes>) => true, Tails(chains));
  }

  lemma CertsReadBack(valid: Bytes -> bool, ss: Session, s: Session, rest: Bytes)
    requires WriteCert(Cert(s.peer, s.ocsp, s.scts)).Some? && WriteAll(WriteChain, s.chains).Some?
    requires Prefixed(3, WriteAll(WriteChain, s.chains).value).Some?
    ensures ReadChains(valid, ss, WriteCert(Cert(s.peer, s.ocsp, s.scts)).value +
                                  (Prefixed(3, WriteAll(WriteChain, s.chains).value).value + rest)) ==
            if CertOk(Cert(s.peer, s.ocsp, s.scts)) && AllValid(valid, s.peer) && (s.chains != [] ==> s.peer != [])
               && ChainsValid(valid, s.chains)
            then Some((ss.(peer := s.peer, ocsp := Normal(s).ocsp, scts := Normal(s).scts,
                           chains := Normal(s).chains), rest))
            else None
  {
    hide WriteAll, ReadAll, ReadPrefixed, ReadCert, WriteCert, AllValid, CertOk, TailsValid, ChainsValid;
    var list := WriteAll(WriteChain, s.chains).value;
    CertReadsBack(Cert(s.peer, s.ocsp, s.scts), Prefixed(3, list).value + rest);
    ReadPrefixedWritten(3, list, rest);
    ChainsReadBack(s.chains);
    ChainsAndTails(valid, s.chains);
    if s.chains == [] { NoTails(valid, s); }
  }

  lemma NoTails(valid: Bytes -> bool, s: Session)
    requires s.chains == []
    ensures Tails(s.chains) == [] && ChainsValid(valid, s.chains) && Normal(s).chains == []
  {
  }

  lemma TailParses(ss: Session, s: Session)
    requires Typed(s) && Tail(s).Some?
    requires ss.isClient == s.isClient && ss.version == s.version && ss.earlyData == s.earlyData && ss.peer == s.peer
    requires ss.useBy == 0 && ss.ageAdd == 0
    ensures ReadTail(ss, Tail(s).value) ==
            if s.isClient && s.peer == [] then None
            else Some(ss.(alpn := Normal(s).alpn, useBy := Normal(s).useBy, ageAdd := Normal(s).ageAdd))
  {
    Pow256Values();
    hide ReadPrefixed, ReadUint, Uint, UintVal, Pow256;
    var expiry := if HasExpiry(s) then Uint(8, s.useBy) + Uint(4, s.ageAdd) else [];
    if s.earlyData {
      ReadPrefixedWritten(1, s.alpn, expiry);
    } else {
      assert [] + expiry == expiry;
    }
    if HasExpiry(s) {
      ReadUintWritten(8, s.useBy, Uint(4, s.ageAdd));
      ReadUintWritten(4, s.ageAdd, []);
      assert Uint(4, s.ageAdd) + [] == Uint(4, s.ageAdd);
    }
  }

  /** ParseSessionState on what Bytes wrote: exactly the decodable states come back, up to what the
      format leaves out. */
  lemma ParseUndoesBytes(valid: Bytes -> bool, s: Session)
    requires Typed(s) && Encode(s).Some?
    ensures Parse(valid, Encode(s).value) == if Decodable(valid, s) then Some(Normal(s)) else None
  {
    hide ReadFixed, ReadSecrets, ReadChains, ReadTail, Head, Secrets, WriteCert, WriteAll, Prefixed, Tail, CertOk,
      AllValid, ChainsValid;
    var certs := WriteCert(Cert(s.peer, s.ocsp, s.scts)).value;
    var chains := Prefixed(3, WriteAll(WriteChain, s.chains).value).value;
    var tail := Tail(s).value;
    FixedReadsBack(s, Secrets(s).value + (certs + (chains + tail)));
    var a := Session(s.version, s.isClient, s.cipherSuite, s.createdAt, [], [], false, false, [], None, None, [], [],
                     0, 0, []);
    SecretsReadBack(a, s, certs + (chains + tail));
    var b := a.(secret := s.secret, extra := s.extra, extMasterSecret := s.extMasterSecret, earlyData := s.earlyData);
    CertsReadBack(valid, b, s, tail);
    var c := b.(peer := s.peer, ocsp := Normal(s).ocsp, scts := Normal(s).scts, chains := Normal(s).chains);
    TailParses(c, s);
  }

  /** The states the format can carry, whatever their stapled data. */
  predicate Carried(valid: Bytes -> bool, s: Session)
  {
    && 1 <= |s.secret|
    && (s.isClient || s.chains != [] ==> s.peer != [])
    && ChainsValid(valid, s.chains)
    && (forall chain | chain in s.chains && chain != [] && s.peer != [] :: chain[0] == s.peer[0])
    && AllValid(valid, s.peer)
    && (!s.earlyData ==> s.alpn == [])
    && (!HasExpiry(s) ==> s.useBy == 0 && s.ageAdd == 0)
    && s.ticket == []
  }

  /** What a caller can check beforehand. */
  predicate Faithful(valid: Bytes -> bool, s: Session)
  {
    && Carried(valid, s)
    && (s.ocsp.Some? || s.scts.Some? ==> s.peer != [])
    && (s.ocsp.Some? ==> s.ocsp.value != [])
    && (s.scts.Some? ==> s.scts.value != [] && forall x | x in s.scts.value :: x != [])
  }

  /** The whole state comes back exactly when every chain starts at the leaf, stapled data is absent or
      non-empty, and the fields the format omits are unset. */
  lemma RoundTripExactly(valid: Bytes -> bool, s: Session)
    requires Typed(s) && Encode(s).Some?
    ensures Parse(valid, Encode(s).value) == Some(s) <==> Faithful(valid, s)
  {
    hide Encode, Parse, AllValid, ChainsValid, Tails, WithLeaf;
    ParseUndoesBytes(valid, s);
    if Decodable(valid, s) && s.peer != [] { LeafRestored(valid, s.peer[0], s.chains); }
  }

  lemma LeafRestored(valid: Bytes -> bool, leaf: Bytes, chains: seq<seq<Bytes>>)
    requires ChainsValid(valid, chains)
    ensures WithLeaf(leaf, Tails(chains)) == chains <==>
            forall chain | chain in chains && chain != [] :: chain[0] == leaf
  {
    hide AllValid;
    var w := WithLeaf(leaf, Tails(chains));
    forall i | 0 <= i < |chains| ensures chains[i] != [] {
      assert chains[i] in chains;
    }
    forall i | 0 <= i < |chains| ensures w[i] == chains[i] <==> chains[i][0] == leaf {
      assert chains[i] in chains;
      assert chains[i] == [chains[i][0]] + chains[i][1..];
    }
    if w == chains {
      forall chain | chain in chains ensures chain[0] == leaf {
        var i :| 0 <= i < |chains| && chains[i] == chain;
        assert w[i] == chains[i];
      }
    }
  }

  // ---- Which bytes parse, and to what ----

  function ChainBytes(s: Session): (r: Option<Bytes>)
  {
    var list :- WriteAll(WriteChain, s.chains);
    Prefixed(3, list)
  }

  /** The bytes are the fields of s in order, around a certificate list that reads as the certificates of s. */
  ghost predicate Wraps(s: Session, certs: Bytes, data: Bytes)
  {
    && Secrets(s).Some? && ChainBytes(s).Some? && Tail(s).Some?
    && data == Head(s) + (Secrets(s).value + (certs + (ChainBytes(s).value + Tail(s).value)))
    && forall rest: Bytes :: ReadCert(certs + rest) == Some((Cert(s.peer, s.ocsp, s.scts), rest))
  }

  lemma ReadUintSound(w: nat, s: Bytes)
    requires ReadUint(w, s).Some?
    ensures var (n, rest) := ReadUint(w, s).value; n < Pow256(w) && s == Uint(w, n) + rest
  {
    UintValBound(s[..w]);
    UintOfVal(s[..w]);
    assert s == s[..w] + s[w..];
  }

  lemma FixedSound(data: Bytes)
    requires ReadFixed(data).Some?
    ensures var (a, rest) := ReadFixed(data).value;
      && Typed(a) && data == Head(a) + rest
      && a == Session(a.version, a.isClient, a.cipherSuite, a.createdAt, [], [], false, false, [], None, None, [], [],
                      0, 0, [])
  {
    Pow256Values();
    hide Uint, UintVal, Pow256, ReadUint;
    var (version, s1) := ReadUint(2, data).value;
    var (typ, s2) := ReadUint(1, s1).value;
    var (suite, s3) := ReadUint(2, s2).value;
    ReadUintSound(2, data);
    ReadUintSound(1, s1);
    ReadUintSound(2, s2);
    ReadUintSound(8, s3);
    var (a, rest) := ReadFixed(data).value;
    assert data == Head(a) + rest;
  }

  lemma FlagSound(s: Bytes)
    requires ReadUint(1, s).Some? && ReadUint(1, s).value.0 <= 1
    ensures s == [Flag(ReadUint(1, s).value.0 == 1)] + ReadUint(1, s).value.1
  {
    assert s == s[..1] + s[1..] && s[..1] == [s[0]];
    assert s[..1][..0] == [];
    assert UintVal(s[..1]) == s[0];
  }

  lemma ItemsSound(list: Bytes)
    requires ReadAll(ReadItem, list).Some?
    ensures WriteAll(WriteItem, ReadAll(ReadItem, list).value) == Some(list)
  {
    forall t: Bytes | ReadItem(t).Some?
      ensures WriteItem(ReadItem(t).value.0).Some? && t == WriteItem(ReadItem(t).value.0).value + ReadItem(t).value.1
    {
      ReadPrefixedSound(3, t);
    }
    WriteAllOfRead(ReadItem, WriteItem, list);
  }

  lemma SecretsSound(ss: Session, data: Bytes)
    requires ReadSecrets(ss, data).Some?
    ensures var (b, rest) := ReadSecrets(ss, data).value;
      && Secrets(b).Some? && data == Secrets(b).value + rest && b.secret != []
      && b == ss.(secret := b.secret, extra := b.extra, extMasterSecret := b.extMasterSecret, earlyData := b.earlyData)
  {
    hide WriteAll, ReadAll, ReadPrefixed, ReadUint, Uint, Pow256;
    var (secret, s1) := ReadPrefixed(1, data).value;
    var (extra, s2) := ReadPrefixed(3, s1).value;
    var (ems, s3) := ReadUint(1, s2).value;
    var (early, s4) := ReadUint(1, s3).value;
    ReadPrefixedSound(1, data);
    ReadPrefixedSound(3, s1);
    FlagSound(s2);
    FlagSound(s3);
    ItemsSound(extra);
    var b := ReadSecrets(ss, data).value.0;
    var x, y := Prefixed(1, secret).value, Prefixed(3, extra).value;
    assert data == x + (y + ([Flag(b.extMasterSecret)] + ([Flag(b.earlyData)] + s4)));
    assert data == (x + y + [Flag(b.extMasterSecret), Flag(b.earlyData)]) + s4;
  }

  lemma TailsSound(list: Bytes)
    requires ReadAll(ReadChain, list).Some?
    ensures WriteAll(WriteTail, ReadAll(ReadChain, list).value) == Some(list)
  {
    hide ReadAll, WriteAll;
    forall t: Bytes | ReadChain(t).Some?
      ensures WriteTail(ReadChain(t).value.0).Some? && t == WriteTail(ReadChain(t).value.0).value + ReadChain(t).value.1
    {
      ReadPrefixedSound(3, t);
      ItemsSound(ReadPrefixed(3, t).value.0);
    }
    WriteAllOfRead(ReadChain, WriteTail, list);
  }

  lemma {:induction false} LeavesDropped(leaf: Bytes, tails: seq<seq<Bytes>>)
    ensures WriteAll(WriteChain, WithLeaf(leaf, tails)) == WriteAll(WriteTail, tails)
    ensures Tails(WithLeaf(leaf, tails)) == tails
  {
    hide WriteItem;
    var w := WithLeaf(leaf, tails);
    if tails != [] {
      LeavesDropped(leaf, tails[1..]);
      assert w[1..] == WithLeaf(leaf, tails[1..]) && w[0][1..] == tails[0];
    }
  }

  /** Where a certificate list stops, whatever follows it. */
  lemma CertSound(data: Bytes) returns (certs: Bytes)
    requires ReadCert(data).Some?
    ensures data == certs + ReadCert(data).value.1
    ensures forall rest: Bytes :: ReadCert(certs + rest) == Some((ReadCert(data).value.0, rest))
  {
    hide ReadAll, FromEntries, ReadPrefixed, Uint, Pow256;
    ReadPrefixedSound(3, data);
    var list := ReadPrefixed(3, data).value.0;
    certs := Uint(3, |list|) + list;
    forall rest: Bytes ensures ReadCert(certs + rest) == Some((ReadCert(data).value.0, rest)) {
      ReadPrefixedWritten(3, list, rest);
    }
  }

  lemma ChainsSound(valid: Bytes -> bool, ss: Session, data: Bytes) returns (certs: Bytes)
    requires ReadChains(valid, ss, data).Some?
    ensures var (c, rest) := ReadChains(valid, ss, data).value;
      && ChainBytes(c).Some? && data == certs + (ChainBytes(c).value + rest)
      && (forall rest: Bytes :: ReadCert(certs + rest) == Some((Cert(c.peer, c.ocsp, c.scts), rest)))
      && c == ss.(peer := c.peer, ocsp := c.ocsp, scts := c.scts, chains := c.chains)
      && AllValid(valid, c.peer) && ChainsValid(valid, c.chains) && (c.chains != [] ==> c.peer != [])
      && forall chain | chain in c.chains && chain != [] && c.peer != [] :: chain[0] == c.peer[0]
  {
    hide WriteAll, ReadAll, ReadPrefixed, ReadCert, AllValid, TailsValid, ChainsValid, Uint, Pow256;
    certs := CertSound(data);
    var (cert, s1) := ReadCert(data).value;
    var (list, rest) := ReadPrefixed(3, s1).value;
    var tails := ReadAll(ReadChain, list).value;
    var c := ReadChains(valid, ss, data).value.0;
    ReadPrefixedSound(3, s1);
    TailsSound(list);
    if tails == [] {
      NoTails(valid, c);
      NothingWritten();
    } else {
      LeavesDropped(cert.chain[0], tails);
      ChainsAndTails(valid, c.chains);
    }
  }

  lemma NothingWritten()
    ensures WriteAll(WriteTail, []) == Some([]) && WriteAll(WriteChain, []) == Some([])
  {
  }

  lemma TailSound(ss: Session, data: Bytes)
    requires ReadTail(ss, data).Some? && ss.useBy == 0 && ss.ageAdd == 0
    ensures var s := ReadTail(ss, data).value;
      && Tail(s) == Some(data) && (s.isClient ==> s.peer != []) && (!s.earlyData ==> s.alpn == [])
      && (!HasExpiry(s) ==> s.useBy == 0 && s.ageAdd == 0)
      && s.useBy < 0x1_0000_0000_0000_0000 && s.ageAdd < 0x1_0000_0000
      && s == ss.(alpn := s.alpn, useBy := s.useBy, ageAdd := s.ageAdd)
  {
    Pow256Values();
    hide ReadPrefixed, ReadUint, Uint, UintVal, Pow256;
    var s := ReadTail(ss, data).value;
    var s1 := if ss.earlyData then ReadPrefixed(1, data).value.1 else data;
    if ss.earlyData { ReadPrefixedSound(1, data); }
    if HasExpiry(ss) {
      ReadUintSound(8, s1);
      ReadUintSound(4, ReadUint(8, s1).value.1);
      assert s1 == Uint(8, s.useBy) + Uint(4, s.ageAdd);
    }
    if !ss.earlyData { assert [] + s1 == s1; }
  }

  /** Later stages of the parser leave what earlier ones wrote. */
  lemma StagesKeep(a: Session, b: Session, c: Session, s: Session)
    requires b == a.(secret := b.secret, extra := b.extra, extMasterSecret := b.extMasterSecret,
                     earlyData := b.earlyData)
    requires c == b.(peer := c.peer, ocsp := c.ocsp, scts := c.scts, chains := c.chains)
    requires s == c.(alpn := s.alpn, useBy := s.useBy, ageAdd := s.ageAdd)
    ensures Head(s) == Head(a) && Secrets(s) == Secrets(b) && ChainBytes(s) == ChainBytes(c)
  {
    hide Uint, WriteAll, Prefixed;
  }

  /** Everything that parses is the parsed state written out. */
  lemma ParsedWraps(valid: Bytes -> bool, data: Bytes) returns (certs: Bytes)
    requires Parse(valid, data).Some?
    ensures var s := Parse(valid, data).value; Typed(s) && Carried(valid, s) && Wraps(s, certs, data)
  {
    hide ReadFixed, ReadSecrets, ReadChains, ReadTail, Head, Secrets, ChainBytes, Tail, ReadCert, AllValid, ChainsValid;
    var (a, s1) := ReadFixed(data).value;
    var (b, s2) := ReadSecrets(a, s1).value;
    var (c, s3) := ReadChains(valid, b, s2).value;
    FixedSound(data);
    SecretsSound(a, s1);
    certs := ChainsSound(valid, b, s2);
    TailSound(c, s3);
    StagesKeep(a, b, c, ReadTail(c, s3).value);
  }

  lemma WrappedChainsRead(valid: Bytes -> bool, ss: Session, s: Session, certs: Bytes, rest: Bytes)
    requires Carried(valid, s) && ChainBytes(s).Some?
    requires ReadCert(certs + (ChainBytes(s).value + rest)) ==
             Some((Cert(s.peer, s.ocsp, s.scts), ChainBytes(s).value + rest))
    ensures ReadChains(valid, ss, certs + (ChainBytes(s).value + rest)) ==
            Some((ss.(peer := s.peer, ocsp := s.ocsp, scts := s.scts, chains := s.chains), rest))
  {
    hide WriteAll, ReadAll, ReadPrefixed, ReadCert, AllValid, TailsValid, ChainsValid, HasExpiry, Uint;
    var list := WriteAll(WriteChain, s.chains).value;
    ReadPrefixedWritten(3, list, rest);
    ChainsReadBack(s.chains);
    ChainsAndTails(valid, s.chains);
    if s.chains == [] {
      NoTails(valid, s);
    } else {
      LeafRestored(valid, s.peer[0], s.chains);
    }
  }

  lemma WrapsParses(valid: Bytes -> bool, s: Session, certs: Bytes, data: Bytes)
    requires Typed(s) && Carried(valid, s) && Wraps(s, certs, data)
    ensures Parse(valid, data) == Some(s)
  {
    hide ReadFixed, ReadSecrets, ReadChains, ReadTail, Head, Secrets, ChainBytes, Tail, ReadCert, AllValid, ChainsValid;
    var chains, tail := ChainBytes(s).value, Tail(s).value;
    FixedReadsBack(s, Secrets(s).value + (certs + (chains + tail)));
    var a := Session(s.version, s.isClient, s.cipherSuite, s.createdAt, [], [], false, false, [], None, None, [], [],
                     0, 0, []);
    SecretsReadBack(a, s, certs + (chains + tail));
    var b := a.(secret := s.secret, extra := s.extra, extMasterSecret := s.extMasterSecret, earlyData := s.earlyData);
    WrappedChainsRead(valid, b, s, certs, tail);
    TailParses(b.(peer := s.peer, ocsp := s.ocsp, scts := s.scts, chains := s.chains), s);
  }

  /** For any bytes: they parse to s exactly when they are the fields of s in order, around a certificate list
      that reads as its certificates, and s is a state the format can carry. */
  lemma ParsesExactly(valid: Bytes -> bool, data: Bytes, s: Session)
    ensures Parse(valid, data) == Some(s) <==>
            Typed(s) && Carried(valid, s) && exists certs: Bytes :: Wraps(s, certs, data)
  {
    hide Parse, Typed, Carried, Wraps;
    if Parse(valid, data) == Some(s) {
      var certs := ParsedWraps(valid, data);
      assert Wraps(s, certs, data);
    }
    forall certs: Bytes | Typed(s) && Carried(valid, s) && Wraps(s, certs, data) ensures Parse(valid, data) == Some(s) {
      WrapsParses(valid, s, certs, data);
    }
  }

  // ---- The parser's loops ----

  /** for !list.Empty() { read one certificate or extra }. */
  method ReadItems(list: Bytes) returns (r: Option<seq<Bytes>>)
    ensures r == ReadAll(ReadItem, list)
  {
    hide ReadAll;
    var s, done := list, [];
    ReachedStart(ReadItem, list);
    while s != []
      invariant Reached(ReadItem, list, done, s)
      decreases |s|
    {
      ReachedNext(ReadItem, list, done, s);
      var next := ReadPrefixed(3, s);
      if next.None? { return None; }
      done := done + [next.value.0];
      s := next.value.1;
    }
    ReachedEnd(ReadItem, list, done);
    return Some(done);
  }

  /** newCert on each certificate of a list. */
  method ParseCerts(valid: Bytes -> bool, certs: seq<Bytes>) returns (ok: bool)
    ensures ok == AllValid(valid, certs)
  {
    for i := 0 to |certs|
      invariant forall j | 0 <= j < i :: valid(certs[j])
    {
      if !valid(certs[i]) {
        assert certs[i] in certs;
        return false;
      }
    }
    return true;
  }

  lemma WithLeafSnoc(leaf: Bytes, tails: seq<seq<Bytes>>, t: seq<Bytes>)
    ensures WithLeaf(leaf, tails + [t]) == WithLeaf(leaf, tails) + [[leaf] + t]
  {
  }

  /** The loop over the verified chains. */
  method ReadChainList(valid: Bytes -> bool, peer: seq<Bytes>, list: Bytes) returns (r: Option<seq<seq<Bytes>>>)
    ensures var tails := ReadAll(ReadChain, list);
      r == if tails.None? || (tails.value != [] && (peer == [] || !TailsValid(valid, tails.value))) then None
           else if tails.value == [] then Some([]) else Some(WithLeaf(peer[0], tails.value))
  {
    hide ReadAll, AllValid;
    var s, chains := list, [];
    ghost var tails: seq<seq<Bytes>> := [];
    ReachedStart(ReadChain, list);
    while s != []
      invariant Reached(ReadChain, list, tails, s) && TailsValid(valid, tails)
      invariant peer == [] ==> tails == []
      invariant chains == if tails == [] then [] else WithLeaf(peer[0], tails)
      decreases |s|
    {
      ReachedNext(ReadChain, list, tails, s);
      ghost var after := ReadAll(ReadChain, list);
      var next := ReadPrefixed(3, s);
      if next.None? { return None; }
      var certs := ReadItems(next.value.0);
      if certs.None? { return None; }
      if peer == [] {
        assert after.Some? ==> after.value != [];
        return None;
      }
      var ok := ParseCerts(valid, certs.value);
      if !ok {
        if after.Some? { assert certs.value in tails + [certs.value]; }
        return None;
      }
      WithLeafSnoc(peer[0], tails, certs.value);
      chains := chains + [[peer[0]] + certs.value];
      tails := tails + [certs.value];
      s := next.value.1;
    }
    ReachedEnd(ReadChain, list, tails);
    return Some(chains);
  }

  /** ParseSessionState. */
  method ParseSessionState(valid: Bytes -> bool, data: Bytes) returns (r: Option<Session>)
    ensures r == Parse(valid, data)
  {
    hide ReadAll, AllValid, TailsValid, ReadCert;
    var fixedPart := ReadFixed(data);
    if fixedPart.None? { return None; }
    var ss, s := fixedPart.value.0, fixedPart.value.1;
    var secret := ReadPrefixed(1, s);
    if secret.None? { return None; }
    var extra := ReadPrefixed(3, secret.value.1);
    if extra.None? || |extra.value.1| < 2 || secret.value.0 == [] { return None; }
    var ems := ReadUint(1, extra.value.1);
    var early := ReadUint(1, ems.value.1);
    var cert := UnmarshalCertificate(early.value.1);
    if cert.None? { return None; }
    var items := ReadItems(extra.value.0);
    if items.None? || ems.value.0 > 1 || early.value.0 > 1 { return None; }
    ss := ss.(secret := secret.value.0, extra := items.value, extMasterSecret := ems.value.0 == 1,
      earlyData := early.value.0 == 1);
    var peer := cert.value.0.chain;
    var ok := ParseCerts(valid, peer);
    if !ok { return None; }
    var chainList := ReadPrefixed(3, cert.value.1);
    if chainList.None? { return None; }
    var chains := ReadChainList(valid, peer, chainList.value.0);
    if chains.None? { return None; }
    ss := ss.(peer := peer, ocsp := cert.value.0.staple, scts := cert.value.0.scts, chains := chains.value);
    return ReadTail(ss, chainList.value.1);
  }
}
