/** What the server rebuilds from the client's encoded inner hello, and exactly when it accepts it. */
module EchRoundTrip {
  import opened Wire
  import opened ClientHello
  import opened Ech

  // ---- In-order references ----

  predicate IsSubseq(xs: seq<nat>, ys: seq<nat>)
  {
    if xs == [] then true
    else if ys == [] then false
    else if xs[0] == ys[0] then IsSubseq(xs[1..], ys[1..])
    else IsSubseq(xs, ys[1..])
  }

  lemma {:induction false} SubseqDistinct(xs: seq<nat>, ys: seq<nat>)
    requires IsSubseq(xs, ys) && Distinct(ys)
    ensures Distinct(xs) && forall x | x in xs :: x in ys
  {
    if xs != [] {
      assert ys == [ys[0]] + ys[1..];
      assert Distinct(ys[1..]);
      if xs[0] == ys[0] {
        SubseqDistinct(xs[1..], ys[1..]);
        forall i, j | 0 <= i < j < |xs| ensures xs[i] != xs[j] {
          if i == 0 { assert xs[j] in xs[1..]; } else { assert xs[1..][i - 1] != xs[1..][j - 1]; }
        }
        forall x | x in xs ensures x in ys {
          if x != xs[0] { assert x in xs[1..]; }
        }
      } else {
        SubseqDistinct(xs, ys[1..]);
      }
    }
  }

  lemma {:induction false} FirstMatch(ts: seq<nat>, raw: seq<RawExt>, j: nat)
    requires j <= |raw| && ts != [] && IsSubseq(ts, Types(raw[j..]))
    ensures var k := FindFrom(raw, j, ts[0]); k < |raw| && IsSubseq(ts[1..], Types(raw[k + 1..]))
    decreases |raw| - j
  {
    assert j < |raw| && Types(raw[j..])[0] == raw[j].typ;
    assert Types(raw[j..])[1..] == Types(raw[j + 1..]);
    if raw[j].typ != ts[0] { FirstMatch(ts, raw, j + 1); }
  }

  /** The raw outer extension of each listed type, in the order of the list. */
  function Pick(ts: seq<nat>, raw: seq<RawExt>): (r: seq<RawExt>)
    ensures Types(r) == ts
  {
    seq(|ts|, i requires 0 <= i < |ts| =>
      RawExt(ts[i], match Lookup(raw, ts[i]) case Some(d) => d case None => []))
  }

  /** An in-order reference list resolves to the outer extensions it names: the forward-only cursor
      never misses one. */
  lemma {:induction false} ResolvePicks(ts: seq<nat>, raw: seq<RawExt>, i: nat, j: nat)
    requires i <= j <= |raw| && Distinct(Types(raw)) && IsSubseq(ts, Types(raw[j..]))
    requires ENCRYPTED_CLIENT_HELLO !in ts
    ensures Resolve(ts, raw, i) == Some(Pick(ts, raw))
    decreases |ts|
  {
    if ts != [] {
      hide IsSubseq, Lookup;
      FirstMatch(ts, raw, j);
      var k := FindFrom(raw, j, ts[0]);
      var k0 := FindFrom(raw, i, ts[0]);
      assert k0 == k by {
        assert Types(raw)[k0] == Types(raw)[k];
      }
      LookupAt(raw, k);
      ResolvePicks(ts[1..], raw, k, k + 1);
      assert Pick(ts, raw) == [raw[k]] + Pick(ts[1..], raw);
    }
  }

  // ---- Parsing what the encoder wrote ----

  lemma {:induction false} ExpandPlain(xs: seq<RawExt>, raw: seq<RawExt>)
    requires forall e | e in xs :: e.typ != ECH_OUTER_EXTENSIONS
    ensures Expand(xs, raw) == Some(xs)
  {
    if xs != [] {
      ExpandPlain(xs[1..], raw);
      assert xs == [xs[0]] + xs[1..];
    }
  }

  lemma ExpandReference(listed: seq<nat>, raw: seq<RawExt>)
    requires Reference(listed).Some? && Distinct(Types(raw)) && IsSubseq(listed, Types(raw))
    requires ENCRYPTED_CLIENT_HELLO !in listed
    ensures Expand(Reference(listed).value, raw) == Some(Pick(listed, raw))
  {
    ResolvePicks(listed, raw, 0, 0) by { assert raw[0..] == raw; }
    if listed != [] {
      var ref := Reference(listed).value;
      var ts := WriteAll(WriteU16, listed).value;
      U16sReadBack(listed);
      ReadPrefixedWritten(1, ts, []);
      assert ref[0].data == Uint(1, |ts|) + ts + [];
      assert Pick(listed, raw) + [] == Pick(listed, raw);
    }
  }

  /** The extensions of the expanded inner hello. */
  function Rebuilt(m: Hello, raw: seq<RawExt>, listed: seq<nat>): (r: Option<seq<RawExt>>)
  {
    var a :- Leading(m);
    var b :- Trailing(m, listed);
    Some(a + Pick(listed, raw) + b)
  }

  lemma ExpandInner(m: Hello, raw: seq<RawExt>, listed: seq<nat>)
    requires InnerExts(m, listed).Some? && Distinct(Types(raw)) && IsSubseq(listed, Types(raw))
    requires ENCRYPTED_CLIENT_HELLO !in listed
    ensures Expand(InnerExts(m, listed).value, raw) == Rebuilt(m, raw, listed)
    ensures Rebuilt(m, raw, listed).Some?
  {
    var a, ref, b := Leading(m).value, Reference(listed).value, Trailing(m, listed).value;
    ExpandPlain(a, raw);
    ExpandPlain(b, raw);
    ExpandReference(listed, raw);
    ExpandAppend(a, ref, raw);
    ExpandAppend(a + ref, b, raw);
  }

  lemma WrittenExtsNonEmpty(exts: seq<RawExt>)
    requires WriteAll(WriteExt, exts).Some? && exts != []
    ensures WriteAll(WriteExt, exts).value != []
  {
    assert exts[0] in exts;
  }

  /** Expanding any well-framed encoded hello. */
  lemma ReconstructFramed(outer: Hello, f: Front, exts: seq<RawExt>, z: Bytes)
    requires WriteFront(f).Some? && f.sessionId == [] && AllZero(z)
    requires WriteAll(WriteExt, exts).Some? && Prefixed(2, WriteAll(WriteExt, exts).value).Some?
    requires RawExtensions(outer.original).Some?
    ensures Reconstruct(outer, WriteFront(f).value + (Prefixed(2, WriteAll(WriteExt, exts).value).value + z)) ==
            (match Expand(exts, RawExtensions(outer.original).value)
             case None => None
             case Some(full) => WriteHello(f.(sessionId := outer.sessionId), full))
  {
    var extBytes := WriteAll(WriteExt, exts).value;
    var block := Prefixed(2, extBytes).value;
    ExtsReadBack(exts);
    FrontReadsBack(f, block + z);
    assert block + z == Uint(2, |extBytes|) + extBytes + z;
    ReadPrefixedWritten(2, extBytes, z);
  }

  lemma BodyParts(f: Front, exts: seq<RawExt>)
    requires Body(f, exts).Some? && exts != []
    ensures WriteFront(f).Some? && WriteAll(WriteExt, exts).Some? && Prefixed(2, WriteAll(WriteExt, exts).value).Some?
    ensures Body(f, exts).value == WriteFront(f).value + Prefixed(2, WriteAll(WriteExt, exts).value).value
  {
    WrittenExtsNonEmpty(exts);
  }

  /** The framing of an encoded inner hello that carries the ECH marker. */
  lemma EncodedParts(m: Hello, maxNameLength: nat, outerExts: seq<nat>) returns (f: Front, exts: seq<RawExt>, z: Bytes)
    requires EncodeInner(m, maxNameLength, outerExts).Some?
    requires m.fields.encryptedClientHello != []
    ensures InnerExts(m, Listed(outerExts)) == Some(exts) && InnerFront(m, []) == Some(f)
    ensures WriteFront(f).Some? && AllZero(z)
    ensures WriteAll(WriteExt, exts).Some? && Prefixed(2, WriteAll(WriteExt, exts).value).Some?
    ensures EncodeInner(m, maxNameLength, outerExts).value ==
            WriteFront(f).value + (Prefixed(2, WriteAll(WriteExt, exts).value).value + z)
  {
    hide WriteAll, WriteFront, SniData, PskData, Prefixed, Listed;
    exts := InnerExts(m, Listed(outerExts)).value;
    f := InnerFront(m, []).value;
    assert exts[0] == Leading(m).value[0];
    BodyParts(f, exts);
    var h := Body(f, exts).value;
    z := EncodeInner(m, maxNameLength, outerExts).value[|h|..];
    var front, block := WriteFront(f).value, Prefixed(2, WriteAll(WriteExt, exts).value).value;
    assert (front + block) + z == front + (block + z);
  }

  /** If the references are in order, the server rebuilds exactly: the inner hello's version, random,
      cipher suites and compression methods, the outer session ID, the inner marker and server name,
      the outer bytes of every listed extension, the inline versions, and the pre-shared key last. */
  lemma ReconstructionExact(m: Hello, maxNameLength: nat, outerExts: seq<nat>, outer: Hello)
    requires EncodeInner(m, maxNameLength, outerExts).Some? && m.fields.encryptedClientHello != []
    requires RawExtensions(outer.original).Some?
    requires Distinct(Types(RawExtensions(outer.original).value))
    requires IsSubseq(Listed(outerExts), Types(RawExtensions(outer.original).value))
    ensures InnerFront(m, outer.sessionId).Some?
    ensures Rebuilt(m, RawExtensions(outer.original).value, Listed(outerExts)).Some?
    ensures Reconstruct(outer, EncodeInner(m, maxNameLength, outerExts).value) ==
            WriteHello(InnerFront(m, outer.sessionId).value,
                       Rebuilt(m, RawExtensions(outer.original).value, Listed(outerExts)).value)
  {
    var raw, listed := RawExtensions(outer.original).value, Listed(outerExts);
    var f, exts, z := EncodedParts(m, maxNameLength, outerExts);
    ReconstructFramed(outer, f, exts, z);
    ListedCompressible(outerExts);
    assert !Compressible(ENCRYPTED_CLIENT_HELLO);
    ExpandInner(m, raw, listed);
  }

  // ---- When the server accepts what it rebuilt ----

  predicate NameOk(name: Bytes) { name == [] || name[|name| - 1] != '.' as int }

  lemma SniParses(name: Bytes)
    requires SniData(name).Some? && name != []
    ensures ServerNameOf(SniData(name).value) == if NameOk(name) then Some(name) else None
  {
    Pow256Values();
    var n := Prefixed(2, name).value;
    var d := SniData(name).value;
    ReadPrefixedWritten(2, [0] + n, []);
    assert d + [] == d;
    var body := [0] + n;
    assert Uint(1, 0) == [0];
    ReadUintWritten(1, 0, n);
    ReadPrefixedWritten(2, name, []);
    assert n + [] == n;
    assert ReadName(body) == Some(((0, name), []));
    assert ReadAll(ReadName, body) == Some([(0, name)] + []);
    assert HostNames([(0, name)]) == [name] + HostNames([]);
  }

  lemma VersionsParse()
    ensures U16List(1, VersionsData()) == Some([TLS13])
  {
    Pow256Values();
    var v := Uint(2, TLS13);
    ReadPrefixedWritten(1, v, []);
    assert VersionsData() == Uint(1, |v|) + v + [];
    ReadUintWritten(2, TLS13, []);
    assert v + [] == v;
    assert [TLS13] + [] == [TLS13];
    assert ReadAll(ReadU16, v) == Some([TLS13]);
  }

  predicate PskWellFormed(ids: seq<PskIdentity>, binders: seq<Bytes>)
  {
    (forall id | id in ids :: id.ticket != []) && binders != [] && forall b | b in binders :: b != []
  }

  lemma IdentitiesParse(ids: seq<PskIdentity>)
    requires WriteAll(WriteIdentity, ids).Some?
    ensures ReadAll(ReadIdentity, WriteAll(WriteIdentity, ids).value) ==
            if forall id | id in ids :: id.ticket != [] then Some(ids) else None
  {
    forall id | id in ids && WriteIdentity(id).Some?
      ensures if id.ticket != [] then ReadsBack(ReadIdentity, WriteIdentity(id).value, id)
              else Refuses(ReadIdentity, WriteIdentity(id).value)
    {
      Pow256Values();
      forall rest: Bytes
        ensures ReadIdentity(WriteIdentity(id).value + rest) == if id.ticket != [] then Some((id, rest)) else None
      {
        assert WriteIdentity(id).value + rest == Uint(2, |id.ticket|) + id.ticket + (Uint(4, id.age) + rest);
        ReadPrefixedWritten(2, id.ticket, Uint(4, id.age) + rest);
        ReadUintWritten(4, id.age, rest);
      }
    }
    ReadAllWritten(ReadIdentity, WriteIdentity, (id: PskIdentity) => id.ticket != [], ids);
  }

  lemma BindersParse(binders: seq<Bytes>)
    requires WriteAll(WriteBinder, binders).Some?
    ensures ReadAll(ReadLabel8, WriteAll(WriteBinder, binders).value) ==
            if forall b | b in binders :: b != [] then Some(binders) else None
  {
    forall b | b in binders && WriteBinder(b).Some?
      ensures if b != [] then ReadsBack(ReadLabel8, WriteBinder(b).value, b)
              else Refuses(ReadLabel8, WriteBinder(b).value)
    {
      forall rest: Bytes ensures ReadLabel8(WriteBinder(b).value + rest) == if b != [] then Some((b, rest)) else None {
        ReadPrefixedWritten(1, b, rest);
      }
    }
    ReadAllWritten(ReadLabel8, WriteBinder, (b: Bytes) => b != [], binders);
  }

  lemma PskParses(ids: seq<PskIdentity>, binders: seq<Bytes>)
    requires PskData(ids, binders).Some? && ids != []
    ensures PskOf(PskData(ids, binders).value) == if PskWellFormed(ids, binders) then Some((ids, binders)) else None
  {
    var i, b := WriteAll(WriteIdentity, ids).value, WriteAll(WriteBinder, binders).value;
    var bb := Prefixed(2, b).value;
    assert PskData(ids, binders).value == Uint(2, |i|) + i + bb;
    ReadPrefixedWritten(2, i, bb);
    ReadPrefixedWritten(2, b, []);
    assert bb == Uint(2, |b|) + b + [];
    IdentitiesParse(ids);
    BindersParse(binders);
  }

  predicate PskOk(m: Hello)
  {
    m.fields.pskIdentities == [] || PskWellFormed(m.fields.pskIdentities, m.fields.pskBinders)
  }

  /** What the server's parser and its two ECH checks demand, said of the client's inner hello and
      of the outer hello only. */
  predicate Acceptable(m: Hello, raw: seq<RawExt>, listed: seq<nat>)
  {
    && m.fields.encryptedClientHello == [1]
    && NameOk(m.fields.serverName)
    && PskOk(m)
    && (if SUPPORTED_VERSIONS in listed
        then Lookup(raw, SUPPORTED_VERSIONS).Some? &&
             U16List(1, Lookup(raw, SUPPORTED_VERSIONS).value) == Some([TLS13])
        else m.fields.supportedVersions != [])
  }

  lemma DistinctConcat(xs: seq<nat>, ys: seq<nat>)
    requires Distinct(xs) && Distinct(ys) && forall x | x in xs :: x !in ys
    ensures Distinct(xs + ys)
  {
    forall i, j | 0 <= i < j < |xs + ys| ensures (xs + ys)[i] != (xs + ys)[j] {
      if i < |xs| <= j {
        assert xs[i] in xs && ys[j - |xs|] in ys;
      }
    }
  }

  lemma TypesConcat(xs: seq<RawExt>, ys: seq<RawExt>)
    ensures Types(xs + ys) == Types(xs) + Types(ys)
  {
  }

  lemma RebuiltDistinct(m: Hello, raw: seq<RawExt>, listed: seq<nat>)
    requires Rebuilt(m, raw, listed).Some? && Distinct(listed) && forall t | t in listed :: Compressible(t)
    ensures Distinct(Types(Rebuilt(m, raw, listed).value))
  {
    hide Leading, Trailing, Lookup, Compressible, Distinct, Types;
    var a, p, b := Leading(m).value, Pick(listed, raw), Trailing(m, listed).value;
    TypesConcat(a, p);
    TypesConcat(a + p, b);
    PickTypes(listed, raw);
    LeadingTypes(m);
    TrailingTypes(m, listed);
    NeverListed();
    DistinctConcat(Types(a), listed);
    DistinctConcat(Types(a) + listed, Types(b));
  }

  lemma NeverListed()
    ensures !Compressible(ENCRYPTED_CLIENT_HELLO) && !Compressible(SERVER_NAME) && !Compressible(PRE_SHARED_KEY)
  {
  }

  lemma PickTypes(listed: seq<nat>, raw: seq<RawExt>)
    ensures Types(Pick(listed, raw)) == listed
  {
  }

  lemma LeadingTypes(m: Hello)
    requires Leading(m).Some?
    ensures Distinct(Types(Leading(m).value))
    ensures forall t | t in Types(Leading(m).value) :: t == ENCRYPTED_CLIENT_HELLO || t == SERVER_NAME
  {
    hide SniData;
  }

  lemma TrailingTypes(m: Hello, listed: seq<nat>)
    requires Trailing(m, listed).Some?
    ensures Distinct(Types(Trailing(m, listed).value))
    ensures forall t | t in Types(Trailing(m, listed).value) ::
              t == PRE_SHARED_KEY || (t == SUPPORTED_VERSIONS && SUPPORTED_VERSIONS !in listed)
  {
    hide PskData, VersionsData;
  }

  /** Only pre_shared_key cares where it stands, and it stands last. */
  lemma PlacesDoNotMatter(exts: seq<RawExt>)
    requires forall i | 0 <= i < |exts| - 1 :: exts[i].typ != PRE_SHARED_KEY
    ensures (forall i | 0 <= i < |exts| :: ExtOk(exts[i], i == |exts| - 1)) <==>
            (forall e | e in exts :: ExtOk(e, true))
  {
    assert forall e: RawExt | e.typ != PRE_SHARED_KEY :: ExtOk(e, false) == ExtOk(e, true);
  }

  lemma PickedOk(raw: seq<RawExt>, listed: seq<nat>)
    requires ExtsOk(raw) && IsSubseq(listed, Types(raw)) && forall t | t in listed :: Compressible(t)
    ensures forall e | e in Pick(listed, raw) :: e.typ != PRE_SHARED_KEY && ExtOk(e, true)
  {
    SubseqDistinct(listed, Types(raw));
    assert !Compressible(PRE_SHARED_KEY);
    forall i | 0 <= i < |listed| ensures listed[i] != PRE_SHARED_KEY && ExtOk(Pick(listed, raw)[i], true) {
      assert listed[i] in listed;
      var j :| 0 <= j < |raw| && Types(raw)[j] == listed[i];
      LookupAt(raw, j);
      assert ExtOk(raw[j], j == |raw| - 1);
    }
  }

  lemma LeadingOk(m: Hello)
    requires Leading(m).Some?
    ensures forall e | e in Leading(m).value :: e.typ != PRE_SHARED_KEY
    ensures (forall e | e in Leading(m).value :: ExtOk(e, true)) <==> NameOk(m.fields.serverName)
  {
    if m.fields.serverName != [] {
      SniParses(m.fields.serverName);
      var a := Leading(m).value;
      assert a[|a| - 1] in a;
    }
  }

  lemma PskExtsOk(m: Hello)
    requires PskExts(m).Some?
    ensures (forall e | e in PskExts(m).value :: ExtOk(e, true)) <==> PskOk(m)
  {
    if m.fields.pskIdentities != [] {
      PskParses(m.fields.pskIdentities, m.fields.pskBinders);
      assert PskExts(m).value[0] in PskExts(m).value;
    }
  }

  lemma TrailingOk(m: Hello, listed: seq<nat>)
    requires Trailing(m, listed).Some?
    ensures forall i | 0 <= i < |Trailing(m, listed).value| - 1 :: Trailing(m, listed).value[i].typ != PRE_SHARED_KEY
    ensures (forall e | e in Trailing(m, listed).value :: ExtOk(e, true)) <==> PskOk(m)
  {
    hide PskData, PskOf, PskOk, VersionsData;
    VersionsParse();
    PskExtsOk(m);
    var v, k := InlineVersions(m, listed), PskExts(m).value;
    assert forall e | e in v :: e.typ != PRE_SHARED_KEY && ExtOk(e, true);
    assert forall e :: e in v + k <==> e in v || e in k;
  }

  lemma RebuiltOk(m: Hello, raw: seq<RawExt>, listed: seq<nat>)
    requires Rebuilt(m, raw, listed).Some?
    requires ExtsOk(raw) && IsSubseq(listed, Types(raw)) && forall t | t in listed :: Compressible(t)
    ensures ExtsOk(Rebuilt(m, raw, listed).value) <==>
            NameOk(m.fields.serverName) && PskOk(m)
  {
    hide Leading, Pick, Trailing, PskOk, NameOk, ExtOk, Compressible;
    var a, p, b := Leading(m).value, Pick(listed, raw), Trailing(m, listed).value;
    SubseqDistinct(listed, Types(raw));
    RebuiltDistinct(m, raw, listed);
    LeadingOk(m);
    PickedOk(raw, listed);
    TrailingOk(m, listed);
    var exts := a + p + b;
    forall i | 0 <= i < |exts| - 1 ensures exts[i].typ != PRE_SHARED_KEY {
      assert i < |a| ==> exts[i] in a;
      assert |a| <= i < |a| + |p| ==> exts[i] in p;
    }
    PlacesDoNotMatter(exts);
    assert forall e :: e in exts <==> e in a || e in p || e in b;
  }

  lemma LookupPicked(raw: seq<RawExt>, listed: seq<nat>, t: nat)
    requires Distinct(Types(raw)) && IsSubseq(listed, Types(raw))
    ensures Lookup(Pick(listed, raw), t) == if t in listed then Lookup(raw, t) else None
  {
    SubseqDistinct(listed, Types(raw));
    if t in listed {
      var i :| 0 <= i < |listed| && listed[i] == t;
      LookupAt(Pick(listed, raw), i);
      var j :| 0 <= j < |raw| && Types(raw)[j] == t;
      LookupAt(raw, j);
    } else {
      LookupAbsent(Pick(listed, raw), t);
    }
  }

  lemma LookupLeading(m: Hello, t: nat)
    requires Leading(m).Some?
    ensures Lookup(Leading(m).value, t) ==
            if t == ENCRYPTED_CLIENT_HELLO && m.fields.encryptedClientHello != []
            then Some(m.fields.encryptedClientHello)
            else if t == SERVER_NAME && m.fields.serverName != [] then SniData(m.fields.serverName)
            else None
  {
    var a := Leading(m).value;
    if |a| == 2 { LookupAppend([a[0]], [a[1]], t); assert a == [a[0]] + [a[1]]; }
  }

  lemma LookupTrailing(m: Hello, listed: seq<nat>, t: nat)
    requires Trailing(m, listed).Some?
    ensures Lookup(Trailing(m, listed).value, t) ==
            if t == SUPPORTED_VERSIONS && SUPPORTED_VERSIONS !in listed && m.fields.supportedVersions != []
            then Some(VersionsData())
            else if t == PRE_SHARED_KEY && m.fields.pskIdentities != []
            then PskData(m.fields.pskIdentities, m.fields.pskBinders)
            else None
  {
    LookupAppend(InlineVersions(m, listed), PskExts(m).value, t);
  }

  lemma LookupRebuilt(m: Hello, raw: seq<RawExt>, listed: seq<nat>, t: nat)
    requires Rebuilt(m, raw, listed).Some?
    requires Distinct(Types(raw)) && IsSubseq(listed, Types(raw)) && forall u | u in listed :: Compressible(u)
    ensures Lookup(Rebuilt(m, raw, listed).value, t) ==
            if t in listed then Lookup(raw, t)
            else if t == ENCRYPTED_CLIENT_HELLO && m.fields.encryptedClientHello != []
            then Some(m.fields.encryptedClientHello)
            else if t == SERVER_NAME && m.fields.serverName != [] then SniData(m.fields.serverName)
            else if t == SUPPORTED_VERSIONS && m.fields.supportedVersions != [] then Some(VersionsData())
            else if t == PRE_SHARED_KEY && m.fields.pskIdentities != []
            then PskData(m.fields.pskIdentities, m.fields.pskBinders)
            else None
  {
    var a, p, b := Leading(m).value, Pick(listed, raw), Trailing(m, listed).value;
    assert !Compressible(ENCRYPTED_CLIENT_HELLO) && !Compressible(SERVER_NAME) && !Compressible(PRE_SHARED_KEY);
    LookupAppend(a + p, b, t);
    LookupAppend(a, p, t);
    LookupPicked(raw, listed, t);
    LookupLeading(m, t);
    LookupTrailing(m, listed, t);
    if t in listed {
      SubseqDistinct(listed, Types(raw));
      var j :| 0 <= j < |raw| && Types(raw)[j] == t;
      LookupAt(raw, j);
    }
  }

  lemma RebuiltParts(m: Hello, raw: seq<RawExt>, listed: seq<nat>)
    requires Rebuilt(m, raw, listed).Some?
    ensures m.fields.serverName != [] ==> SniData(m.fields.serverName).Some?
    ensures m.fields.pskIdentities != [] ==> PskData(m.fields.pskIdentities, m.fields.pskBinders).Some?
  {
    hide SniData, PskData, Pick;
  }

  /** The fields the server reads off the expanded hello. */
  lemma RebuiltFields(m: Hello, raw: seq<RawExt>, listed: seq<nat>)
    requires Rebuilt(m, raw, listed).Some? && NameOk(m.fields.serverName) && PskOk(m)
    requires Distinct(Types(raw)) && IsSubseq(listed, Types(raw)) && forall t | t in listed :: Compressible(t)
    ensures var f := FieldsIn(Rebuilt(m, raw, listed).value);
            && f.serverName == m.fields.serverName
            && f.encryptedClientHello == m.fields.encryptedClientHello
            && f.supportedVersions == (if SUPPORTED_VERSIONS in listed then FieldsIn(raw).supportedVersions
                                       else if m.fields.supportedVersions == [] then [] else [TLS13])
            && f.pskIdentities == m.fields.pskIdentities
            && f.pskBinders == (if m.fields.pskIdentities == [] then [] else m.fields.pskBinders)
  {
    hide Rebuilt, Lookup, Types, IsSubseq, Compressible, SniData, PskData, U16List, ServerNameOf, PskOf, VersionsData;
    NeverListed();
    RebuiltParts(m, raw, listed);
    LookupRebuilt(m, raw, listed, SERVER_NAME);
    LookupRebuilt(m, raw, listed, ENCRYPTED_CLIENT_HELLO);
    LookupRebuilt(m, raw, listed, SUPPORTED_VERSIONS);
    LookupRebuilt(m, raw, listed, PRE_SHARED_KEY);
    VersionsParse();
    if m.fields.serverName != [] { SniParses(m.fields.serverName); }
    if m.fields.pskIdentities != [] { PskParses(m.fields.pskIdentities, m.fields.pskBinders); }
  }
}