/** The exact condition under which the server accepts an encoded inner hello, and what the accepted
    hello depends on. */
module EchAccept {
  import opened Wire
  import opened ClientHello
  import opened Ech
  import opened EchRoundTrip

  lemma ParsedWritten(f: Front, exts: seq<RawExt>)
    requires WriteHello(f, exts).Some?
    ensures Parsed(WriteHello(f, exts).value) ==
            if ReadAll(ReadU16, f.suites).Some? && ExtsOk(exts)
            then Some(Hello(WriteHello(f, exts).value, UintVal(f.versionAndRandom[..2]), f.versionAndRandom[2..],
                            f.sessionId, ReadAll(ReadU16, f.suites).value, f.compression, FieldsIn(exts)))
            else None
  {
    var extBytes := WriteAll(WriteExt, exts).value;
    var block := Prefixed(2, extBytes).value;
    HelloBytes(f, exts);
    FrontReadsBack(f, block);
    ReadPrefixedWritten(2, extBytes, []);
    assert block == Uint(2, |extBytes|) + extBytes + [];
    ExtsReadBack(exts);
  }

  /** The outer hello as the server holds it: parsed, with a readable extension block. */
  ghost predicate ReceivedOuter(outer: Hello, raw: seq<RawExt>)
  {
    Parsed(outer.original) == Some(outer) && RawExtensions(outer.original) == Some(raw)
  }

  lemma ReceivedExtsOk(outer: Hello, raw: seq<RawExt>)
    requires ReceivedOuter(outer, raw)
    ensures ExtsOk(raw)
  {
    var (f, rest) := ReadFront(outer.original[4..]).value;
    assert BlockFields(rest).Some?;
  }

  lemma FrontFields(m: Hello, sessionId: Bytes)
    requires InnerFront(m, sessionId).Some?
    ensures var f := InnerFront(m, sessionId).value;
            && |f.versionAndRandom| == 34 && UintVal(f.versionAndRandom[..2]) == m.version
            && f.versionAndRandom[2..] == m.random && f.sessionId == sessionId && f.compression == m.compressionMethods
            && ReadAll(ReadU16, f.suites) == Some(m.cipherSuites)
  {
    Pow256Values();
    var f := InnerFront(m, sessionId).value;
    UintValFits(2, m.version);
    assert f.versionAndRandom[..2] == Uint(2, m.version);
    assert f.versionAndRandom[2..] == m.random;
    U16sReadBack(m.cipherSuites);
  }

  /** The bytes of the expanded inner hello. */
  function Expanded(m: Hello, outer: Hello, raw: seq<RawExt>, listed: seq<nat>): (r: Option<Bytes>)
  {
    var f :- InnerFront(m, outer.sessionId);
    var exts :- Rebuilt(m, raw, listed);
    WriteHello(f, exts)
  }

  /** The inner hello the server ends up with, given the client's. */
  function Accepted(m: Hello, outer: Hello, raw: seq<RawExt>, listed: seq<nat>): (h: Hello)
    requires Expanded(m, outer, raw, listed).Some?
  {
    Hello(Expanded(m, outer, raw, listed).value, m.version, m.random, outer.sessionId, m.cipherSuites,
          m.compressionMethods,
          Fields(Types(Rebuilt(m, raw, listed).value), m.fields.serverName, [TLS13], m.fields.pskIdentities,
                 if m.fields.pskIdentities == [] then [] else m.fields.pskBinders, [1]))
  }

  lemma VersionsAgree(m: Hello, raw: seq<RawExt>, listed: seq<nat>)
    requires ExtsOk(raw) && IsSubseq(listed, Types(raw))
    ensures (if SUPPORTED_VERSIONS in listed then FieldsIn(raw).supportedVersions
             else if m.fields.supportedVersions == [] then [] else [TLS13]) == [TLS13] <==>
            (if SUPPORTED_VERSIONS in listed
             then Lookup(raw, SUPPORTED_VERSIONS).Some? &&
               U16List(1, Lookup(raw, SUPPORTED_VERSIONS).value) == Some([TLS13])
             else m.fields.supportedVersions != [])
  {
    if SUPPORTED_VERSIONS in listed {
      SubseqDistinct(listed, Types(raw));
      var j :| 0 <= j < |raw| && Types(raw)[j] == SUPPORTED_VERSIONS;
      LookupAt(raw, j);
      assert ExtOk(raw[j], j == |raw| - 1);
    }
  }

  /** The server accepts the encoded inner hello exactly when the marker is 1, the name has no
      trailing dot, the pre-shared key (if any) is well formed, the versions it will see are
      [TLS 1.3], and the expansion fits its length fields; it then holds the client's inner hello
      with the outer session ID, and the bytes of Expanded. */
  lemma InnerHelloAccepted(m: Hello, maxNameLength: nat, outerExts: seq<nat>, outer: Hello, raw: seq<RawExt>)
    requires EncodeInner(m, maxNameLength, outerExts).Some? && m.fields.encryptedClientHello != []
    requires ReceivedOuter(outer, raw) && IsSubseq(Listed(outerExts), Types(raw))
    ensures var listed := Listed(outerExts);
            DecodeInner(outer, EncodeInner(m, maxNameLength, outerExts).value) ==
            if Acceptable(m, raw, listed) && Expanded(m, outer, raw, listed).Some?
            then Some((Accepted(m, outer, raw, listed), Expanded(m, outer, raw, listed).value))
            else None
  {
    var listed := Listed(outerExts);
    ReceivedExtsOk(outer, raw);
    ReconstructionExact(m, maxNameLength, outerExts, outer);
    ListedCompressible(outerExts);
    var exts := Rebuilt(m, raw, listed).value;
    if Expanded(m, outer, raw, listed).Some? {
      FrontFields(m, outer.sessionId);
      ParsedWritten(InnerFront(m, outer.sessionId).value, exts);
      RebuiltOk(m, raw, listed);
      VersionsAgree(m, raw, listed);
      if ExtsOk(exts) { RebuiltFields(m, raw, listed); }
    }
  }
}
