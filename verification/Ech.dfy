/** Encrypted Client Hello: the client's compressed encoding of the inner hello
    (encodeInnerClientHelloReorderOuterExts with a list of outer extensions) and the server's
    expansion of it from the raw bytes of the outer hello (decodeInnerClientHelloWithRaw). */
module Ech {
  import opened Wire
  import opened ClientHello

  // ---- Which outer extensions the inner hello refers to ----

  /** extType & 0x0f0f == 0x0a0a */
  predicate IsGrease(t: nat) { t / 256 % 16 == 10 && t % 16 == 10 }

  predicate Compressible(t: nat)
  {
    IsGrease(t) ||
    t in {PSK_MODES, SUPPORTED_CURVES, ALPN, SIGNATURE_ALGORITHMS, QUIC_TRANSPORT_PARAMETERS, KEY_SHARE,
          RENEGOTIATION_INFO, SCT, SUPPORTED_POINTS, SESSION_TICKET, STATUS_REQUEST, EXTENDED_MASTER_SECRET,
          SIGNATURE_ALGORITHMS_CERT, COMPRESS_CERTIFICATE, APPLICATION_SETTINGS, APPLICATION_SETTINGS_NEW,
          SUPPORTED_VERSIONS, EARLY_DATA}
  }

  function Listed(outerExts: seq<nat>): (r: seq<nat>)
  {
    if outerExts == [] then []
    else (if Compressible(outerExts[0]) then [outerExts[0]] else []) + Listed(outerExts[1..])
  }

  lemma {:induction false} ListedAppend(xs: seq<nat>, t: nat)
    ensures Listed(xs + [t]) == Listed(xs) + (if Compressible(t) then [t] else [])
  {
    hide Compressible;
    var last := if Compressible(t) then [t] else [];
    if xs == [] {
      assert xs + [t] == [t] && [t][1..] == [];
      assert Listed([t]) == last + [] == [] + last;
    } else {
      assert (xs + [t])[1..] == xs[1..] + [t] && (xs + [t])[0] == xs[0];
      ListedAppend(xs[1..], t);
      var first, more := if Compressible(xs[0]) then [xs[0]] else [], Listed(xs[1..]);
      assert Listed(xs + [t]) == first + (more + last) == (first + more) + last;
    }
  }

  lemma {:induction false} ListedCompressible(xs: seq<nat>)
    ensures forall t | t in Listed(xs) :: Compressible(t)
  {
    if xs != [] { ListedCompressible(xs[1..]); }
  }

  /** The loop that builds ech_outer_extensions. */
  method BuildOuterList(outerExts: seq<nat>) returns (echOuterExts: seq<nat>)
    ensures echOuterExts == Listed(outerExts)
  {
    echOuterExts := [];
    for i := 0 to |outerExts|
      invariant echOuterExts == Listed(outerExts[..i])
    {
      assert outerExts[..i + 1] == outerExts[..i] + [outerExts[i]];
      ListedAppend(outerExts[..i], outerExts[i]);
      if Compressible(outerExts[i]) {
        echOuterExts := echOuterExts + [outerExts[i]];
      }
    }
    assert outerExts[..|outerExts|] == outerExts;
  }

  // ---- Encoding ----

  function WriteIdentity(id: PskIdentity): (r: Option<Bytes>)
  {
    var ticket :- Prefixed(2, id.ticket);
    if id.age < 0x1_0000_0000 then Some(ticket + Uint(4, id.age)) else None
  }

  function WriteBinder(b: Bytes): (r: Option<Bytes>) { Prefixed(1, b) }

  function PskData(ids: seq<PskIdentity>, binders: seq<Bytes>): (r: Option<Bytes>)
  {
    var idBytes :- WriteAll(WriteIdentity, ids);
    var a :- Prefixed(2, idBytes);
    var binderBytes :- WriteAll(WriteBinder, binders);
    var b :- Prefixed(2, binderBytes);
    Some(a + b)
  }

  function SniData(name: Bytes): (r: Option<Bytes>)
  {
    var n :- Prefixed(2, name);
    Prefixed(2, [0] + n)
  }

  /** The ECH marker and the server name, in that order. */
  function Leading(m: Hello): (r: Option<seq<RawExt>>)
  {
    var marker := if m.fields.encryptedClientHello == [] then []
                  else [RawExt(ENCRYPTED_CLIENT_HELLO, m.fields.encryptedClientHello)];
    if m.fields.serverName == [] then Some(marker) else
    var d :- SniData(m.fields.serverName);
    Some(marker + [RawExt(SERVER_NAME, d)])
  }

  function VersionsData(): (d: Bytes) { Uint(1, 2) + Uint(2, TLS13) }

  function InlineVersions(m: Hello, listed: seq<nat>): (r: seq<RawExt>)
  {
    if SUPPORTED_VERSIONS in listed || m.fields.supportedVersions == [] then []
    else [RawExt(SUPPORTED_VERSIONS, VersionsData())]
  }

  function PskExts(m: Hello): (r: Option<seq<RawExt>>)
  {
    if m.fields.pskIdentities == [] then Some([]) else
    var d :- PskData(m.fields.pskIdentities, m.fields.pskBinders);
    Some([RawExt(PRE_SHARED_KEY, d)])
  }

  /** TLS 1.3-only supported_versions unless it is referred to, then the pre-shared key. */
  function Trailing(m: Hello, listed: seq<nat>): (r: Option<seq<RawExt>>)
  {
    var psk :- PskExts(m);
    Some(InlineVersions(m, listed) + psk)
  }

  function Reference(listed: seq<nat>): (r: Option<seq<RawExt>>)
  {
    if listed == [] then Some([]) else
    var ts :- WriteAll(WriteU16, listed);
    var d :- Prefixed(1, ts);
    Some([RawExt(ECH_OUTER_EXTENSIONS, d)])
  }

  function InnerExts(m: Hello, listed: seq<nat>): (r: Option<seq<RawExt>>)
  {
    var a :- Leading(m);
    var ref :- Reference(listed);
    var b :- Trailing(m, listed);
    Some(a + ref + b)
  }

  function InnerFront(m: Hello, sessionId: Bytes): (r: Option<Front>)
  {
    var v :- WriteU16(m.version);
    var suites :- WriteAll(WriteU16, m.cipherSuites);
    if |m.random| == 32 then Some(Front(v + m.random, sessionId, suites, m.compressionMethods)) else None
  }

  function Zeros(n: nat): (z: Bytes)
    ensures |z| == n && forall i | 0 <= i < n :: z[i] == 0
  {
    seq(n, _ => 0)
  }

  function NamePadding(nameLen: nat, maxNameLength: nat): (n: nat)
  {
    if nameLen == 0 then maxNameLength + 9
    else if nameLen < maxNameLength then maxNameLength - nameLen else 0
  }

  /** A hello without its four-byte header; the extension block is left out when it would be empty. */
  function Body(f: Front, exts: seq<RawExt>): (r: Option<Bytes>)
  {
    var extBytes :- WriteAll(WriteExt, exts);
    var front :- WriteFront(f);
    var block :- if extBytes == [] then Some([]) else Prefixed(2, extBytes);
    var _ :- Prefixed(3, front + block);
    Some(front + block)
  }

  /** The encoded inner hello: no header, no session ID, zero padding at the end. */
  function EncodeInner(m: Hello, maxNameLength: nat, outerExts: seq<nat>): (r: Option<Bytes>)
  {
    var exts :- InnerExts(m, Listed(outerExts));
    var f :- InnerFront(m, []);
    var h :- Body(f, exts);
    Some(h + Zeros(31 - (|h| + NamePadding(|m.fields.serverName|, maxNameLength) - 1) % 32))
  }

  /** The zeros round the hello and its name padding up to a multiple of 32, but the name padding itself is not
      written: the encoding is a multiple of 32 long exactly when the name padding is. */
  lemma PaddingRoundsUp(m: Hello, maxNameLength: nat, outerExts: seq<nat>)
    requires EncodeInner(m, maxNameLength, outerExts).Some?
    ensures var e := EncodeInner(m, maxNameLength, outerExts).value;
            var name := |m.fields.serverName|;
            var n := if name == 0 then maxNameLength + 9 else if name < maxNameLength then maxNameLength - name else 0;
            && (|e| + n) % 32 == 0
            && (|e| % 32 == 0 <==> n % 32 == 0)
            && exists k | 0 <= k <= |e| :: |e| - k < 32 && AllZero(e[k..]) &&
                 Some(e[..k]) == Body(InnerFront(m, []).value, InnerExts(m, Listed(outerExts)).value)
  {
    hide Body, InnerExts, InnerFront, Listed;
    var e, n := EncodeInner(m, maxNameLength, outerExts).value, NamePadding(|m.fields.serverName|, maxNameLength);
    var h := Body(InnerFront(m, []).value, InnerExts(m, Listed(outerExts)).value).value;
    RoundsUp(|h| + n);
    assert e[..|h|] == h && AllZero(e[|h|..]);
    ModSum(|e|, n);
  }

  /** A name one byte short of the longest leaves the encoding one byte short of a multiple of 32. */
  lemma ShortNameMisaligned(m: Hello, outerExts: seq<nat>)
    requires EncodeInner(m, |m.fields.serverName| + 1, outerExts).Some? && m.fields.serverName != []
    ensures |EncodeInner(m, |m.fields.serverName| + 1, outerExts).value| % 32 == 31
  {
    hide EncodeInner;
    PaddingRoundsUp(m, |m.fields.serverName| + 1, outerExts);
  }

  lemma RoundsUp(n: nat)
    ensures 0 <= 31 - (n - 1) % 32 < 32 && (n + (31 - (n - 1) % 32)) % 32 == 0
  {
  }

  lemma ModSum(a: nat, b: nat)
    requires (a + b) % 32 == 0
    ensures a % 32 == 0 <==> b % 32 == 0
  {
  }

  // ---- Expansion ----

  function FindFrom(raw: seq<RawExt>, i: nat, t: nat): (k: nat)
    requires i <= |raw|
    ensures i <= k <= |raw|
    ensures k < |raw| ==> raw[k].typ == t
    ensures forall j | i <= j < k :: raw[j].typ != t
    decreases |raw| - i
  {
    if i == |raw| || raw[i].typ == t then i else FindFrom(raw, i + 1, t)
  }

  /** The outer extensions a reference list stands for. The cursor i only moves forward, and does
      not step past the extension it has just found. */
  function Resolve(ts: seq<nat>, raw: seq<RawExt>, i: nat): (r: Option<seq<RawExt>>)
    requires i <= |raw|
  {
    if ts == [] then Some([])
    else if ts[0] == ENCRYPTED_CLIENT_HELLO then None
    else
      var k := FindFrom(raw, i, ts[0]);
      if k == |raw| then None else
      var more :- Resolve(ts[1..], raw, k);
      Some([raw[k]] + more)
  }

  function ExpandExt(e: RawExt, raw: seq<RawExt>): (r: Option<seq<RawExt>>)
  {
    if e.typ != ECH_OUTER_EXTENSIONS then Some([e]) else
    var (list, _) :- ReadPrefixed(1, e.data);
    var ts :- ReadAll(ReadU16, list);
    Resolve(ts, raw, 0)
  }

  function Expand(exts: seq<RawExt>, raw: seq<RawExt>): (r: Option<seq<RawExt>>)
  {
    if exts == [] then Some([]) else
    var a :- ExpandExt(exts[0], raw);
    var b :- Expand(exts[1..], raw);
    Some(a + b)
  }

  function ExpandBlock(extBytes: Bytes, raw: seq<RawExt>): (r: Option<seq<RawExt>>)
  {
    var exts :- ReadAll(ReadExt, extBytes);
    Expand(exts, raw)
  }

  predicate AllZero(pad: Bytes) { forall i | 0 <= i < |pad| :: pad[i] == 0 }

  /** extractRawExtensions on the bytes of a hello. */
  function RawExtensions(original: Bytes): (r: Option<seq<RawExt>>)
  {
    if |original| < 4 then None else
    var (_, rest) :- ReadFront(original[4..]);
    var (extBytes, _) :- ReadPrefixed(2, rest);
    ReadAll(ReadExt, extBytes)
  }

  /** The bytes of the expanded inner hello, before they are parsed and checked. */
  function Reconstruct(outer: Hello, encoded: Bytes): (r: Option<Bytes>)
  {
    var (f, r1) :- ReadFront(encoded);
    if f.sessionId != [] then None else
    var (extBytes, pad) :- ReadPrefixed(2, r1);
    if !AllZero(pad) then None else
    var raw :- RawExtensions(outer.original);
    var full :- ExpandBlock(extBytes, raw);
    WriteHello(f.(sessionId := outer.sessionId), full)
  }

  /** decodeInnerClientHelloWithRaw: the parsed inner hello and the bytes it was parsed from. */
  ghost function DecodeInner(outer: Hello, encoded: Bytes): (r: Option<(Hello, Bytes)>)
  {
    var recon :- Reconstruct(outer, encoded);
    var inner :- Parsed(recon);
    if inner.fields.encryptedClientHello == [1] && inner.fields.supportedVersions == [TLS13]
    then Some((inner, recon)) else None
  }

  // ---- The imperative forms ----

  /** The scan `for ; i <= len(rawOuterExts); i++` and the loop around it. */
  method ResolveLoop(ts: seq<nat>, raw: seq<RawExt>) returns (r: Option<seq<RawExt>>)
    ensures r == Resolve(ts, raw, 0)
  {
    var out: seq<RawExt> := [];
    var i, n := 0, 0;
    assert ts[0..] == ts;
    assert forall xs: seq<RawExt> :: [] + xs == xs;
    while n < |ts|
      invariant 0 <= n <= |ts| && 0 <= i <= |raw|
      invariant Resolve(ts, raw, 0) ==
                if Resolve(ts[n..], raw, i).Some? then Some(out + Resolve(ts[n..], raw, i).value) else None
    {
      var t := ts[n];
      assert ts[n..][0] == t && ts[n..][1..] == ts[n + 1..];
      if t == ENCRYPTED_CLIENT_HELLO { return None; }
      ghost var i0 := i;
      while i < |raw| && raw[i].typ != t
        invariant i0 <= i <= |raw|
        invariant FindFrom(raw, i, t) == FindFrom(raw, i0, t)
      {
        i := i + 1;
      }
      if i == |raw| { return None; }
      ghost var more := Resolve(ts[n + 1..], raw, i);
      if more.Some? {
        assert out + ([raw[i]] + more.value) == (out + [raw[i]]) + more.value;
      }
      out := out + [raw[i]];
      n := n + 1;
    }
    assert out + [] == out;
    return Some(out);
  }

  lemma {:induction false} ExpandAppend(xs: seq<RawExt>, ys: seq<RawExt>, raw: seq<RawExt>)
    ensures Expand(xs + ys, raw) ==
            if Expand(xs, raw).Some? && Expand(ys, raw).Some?
            then Some(Expand(xs, raw).value + Expand(ys, raw).value) else None
  {
    if xs == [] {
      assert xs + ys == ys;
      assert forall zs: seq<RawExt> :: [] + zs == zs;
    } else {
      assert (xs + ys)[1..] == xs[1..] + ys;
      ExpandAppend(xs[1..], ys, raw);
      if ExpandExt(xs[0], raw).Some? && Expand(xs[1..], raw).Some? && Expand(ys, raw).Some? {
        var a, b, c := ExpandExt(xs[0], raw).value, Expand(xs[1..], raw).value, Expand(ys, raw).value;
        assert a + (b + c) == (a + b) + c;
      }
    }
  }

  /** The loop over the inner hello's extensions. */
  method ExpandLoop(extBytes: Bytes, raw: seq<RawExt>) returns (r: Option<seq<RawExt>>)
    ensures r == ExpandBlock(extBytes, raw)
  {
    var s, out := extBytes, [];
    ghost var done: seq<RawExt> := [];
    assert forall xs: seq<RawExt> :: [] + xs == xs;
    while s != []
      invariant Reached(ReadExt, extBytes, done, s)
      invariant Expand(done, raw) == Some(out)
      decreases |s|
    {
      var next := ReadExt(s);
      if next.None? { return None; }
      var (e, tail) := next.value;
      CursorStep(extBytes, done, s);
      ExpandAppend(done, [e], raw);
      ghost var whole := ReadAll(ReadExt, extBytes);
      if whole.Some? {
        ExpandAppend(done + [e], ReadAll(ReadExt, tail).value, raw);
      }
      assert Expand([e], raw) == if ExpandExt(e, raw).Some? then Some(ExpandExt(e, raw).value + []) else None;
      if e.typ == ECH_OUTER_EXTENSIONS {
        var list := ReadPrefixed(1, e.data);
        if list.None? { return None; }
        var ts := ReadAll(ReadU16, list.value.0);
        if ts.None? { return None; }
        var part := ResolveLoop(ts.value, raw);
        if part.None? { return None; }
        assert part.value + [] == part.value;
        out := out + part.value;
      } else {
        assert [e] + [] == [e];
        out := out + [e];
      }
      s, done := tail, done + [e];
    }
    assert done + [] == done;
    return Some(out);
  }

  /** extractRawExtensions. */
  method ExtractRawExtensions(original: Bytes) returns (r: Option<seq<RawExt>>)
    ensures r == RawExtensions(original)
  {
    if |original| < 4 { return None; }
    var front := ReadFront(original[4..]);
    if front.None? { return None; }
    var block := ReadPrefixed(2, front.value.1);
    if block.None? { return None; }
    var s, out := block.value.0, [];
    hide ReadFront, ReadPrefixed;
    assert forall xs: seq<RawExt> :: [] + xs == xs;
    while s != []
      invariant Reached(ReadExt, block.value.0, out, s)
      decreases |s|
    {
      var next := ReadExt(s);
      if next.None? { return None; }
      CursorStep(block.value.0, out, s);
      out, s := out + [next.value.0], next.value.1;
    }
    assert out + [] == out;
    return Some(out);
  }

  method PaddingIsZero(pad: Bytes) returns (ok: bool)
    ensures ok == AllZero(pad)
  {
    for i := 0 to |pad|
      invariant forall j | 0 <= j < i :: pad[j] == 0
    {
      if pad[i] != 0 { return false; }
    }
    return true;
  }

  method ReconstructInner(outer: Hello, encoded: Bytes) returns (r: Option<Bytes>)
    ensures r == Reconstruct(outer, encoded)
  {
    var front := ReadFront(encoded);
    if front.None? || front.value.0.sessionId != [] { return None; }
    var (f, r1) := front.value;
    var block := ReadPrefixed(2, r1);
    if block.None? { return None; }
    var (extBytes, pad) := block.value;
    var zero := PaddingIsZero(pad);
    if !zero { return None; }
    var raw := ExtractRawExtensions(outer.original);
    if raw.None? { return None; }
    var full := ExpandLoop(extBytes, raw.value);
    if full.None? { return None; }
    return WriteHello(f.(sessionId := outer.sessionId), full.value);
  }

  method DecodeInnerClientHello(outer: Hello, encoded: Bytes) returns (r: Option<(Hello, Bytes)>)
    ensures r == DecodeInner(outer, encoded)
  {
    var recon := ReconstructInner(outer, encoded);
    if recon.None? { return None; }
    var inner := Unmarshal(recon.value);
    if inner.None? || inner.value.fields.encryptedClientHello != [1] ||
       inner.value.fields.supportedVersions != [TLS13] {
      return None;
    }
    return Some((inner.value, recon.value));
  }
}
