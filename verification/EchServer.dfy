/** The server's side of Encrypted Client Hello: the extension it parses, the associated data it
    authenticates, and the keys it tries (parseECHExt, decryptECHPayload, processECHClientHello). */
module EchServer {
  import opened Wire
  import opened ClientHello
  import opened Ech

  // ---- The encrypted_client_hello extension ----

  datatype EchError = Malformed | Invalid
  datatype EchParse =
    | Inner
    | Outer(kdf: nat, aead: nat, configId: nat, encap: Bytes, payload: Bytes)
    | Bad(error: EchError)

  /** generateOuterECHExt up to the payload's length field. */
  function OuterHeader(configId: nat, kdf: nat, aead: nat, encap: Bytes): (r: Option<Bytes>)
  {
    if configId >= 0x100 || kdf >= 0x1_0000 || aead >= 0x1_0000 then None else
    var key :- Prefixed(2, encap);
    Some([0] + Uint(2, kdf) + Uint(2, aead) + Uint(1, configId) + key)
  }

  function OuterEchExt(configId: nat, kdf: nat, aead: nat, encap: Bytes, payload: Bytes): (r: Option<Bytes>)
  {
    var h :- OuterHeader(configId, kdf, aead, encap);
    var p :- Prefixed(2, payload);
    Some(h + p)
  }

  function ParseEchExt(ext: Bytes): (r: EchParse)
  {
    if ext == [] then Bad(Malformed)
    else if ext[0] == 1 then (if |ext| == 1 then Inner else Bad(Malformed))
    else if ext[0] != 0 then Bad(Invalid)
    else if |ext| < 6 then Bad(Malformed)
    else
      match ReadPrefixed(2, ext[6..])
      case None => Bad(Malformed)
      case Some((encap, rest)) =>
        match ReadPrefixed(2, rest)
        case None => Bad(Malformed)
        case Some((payload, _)) =>
          Outer(UintVal(ext[1..3]), UintVal(ext[3..5]), UintVal(ext[5..6]), encap, payload)
  }

  /** parseECHExt reads back every field generateOuterECHExt wrote. */
  lemma OuterEchExtParses(configId: nat, kdf: nat, aead: nat, encap: Bytes, payload: Bytes)
    requires OuterEchExt(configId, kdf, aead, encap, payload).Some?
    ensures ParseEchExt(OuterEchExt(configId, kdf, aead, encap, payload).value) ==
            Outer(kdf, aead, configId, encap, payload)
  {
    Pow256Values();
    var ext := OuterEchExt(configId, kdf, aead, encap, payload).value;
    var p := Prefixed(2, payload).value;
    assert ext[1..3] == Uint(2, kdf) && ext[3..5] == Uint(2, aead) && ext[5..6] == Uint(1, configId);
    assert ext[6..] == Uint(2, |encap|) + encap + p;
    UintValFits(2, kdf);
    UintValFits(2, aead);
    UintValFits(1, configId);
    ReadPrefixedWritten(2, encap, p);
    ReadPrefixedWritten(2, payload, []);
    assert p == Uint(2, |payload|) + payload + [];
  }

  /** For any bytes: what the parser makes of the extension, said by the writer. An outer extension may be
      followed by more bytes; everything else is malformed, or of no known type. */
  lemma ParseEchExactly(ext: Bytes)
    ensures ParseEchExt(ext) == Inner <==> ext == [1]
    ensures ParseEchExt(ext) == Bad(Invalid) <==> ext != [] && ext[0] > 1
    ensures forall configId, kdf, aead, encap, payload ::
              ParseEchExt(ext) == Outer(kdf, aead, configId, encap, payload) <==>
              OuterEchExt(configId, kdf, aead, encap, payload).Some? &&
              OuterEchExt(configId, kdf, aead, encap, payload).value <= ext
  {
    hide Uint, UintVal, Pow256, ReadPrefixed, OuterEchExt;
    if ext != [] && ext[0] == 1 && |ext| == 1 { assert ext == [1]; }
    forall configId, kdf, aead, encap, payload
      ensures ParseEchExt(ext) == Outer(kdf, aead, configId, encap, payload) <==>
              OuterEchExt(configId, kdf, aead, encap, payload).Some? &&
              OuterEchExt(configId, kdf, aead, encap, payload).value <= ext
    {
      if ParseEchExt(ext) == Outer(kdf, aead, configId, encap, payload) {
        ParsedOuterWritten(ext, configId, kdf, aead, encap, payload);
      }
      if OuterEchExt(configId, kdf, aead, encap, payload).Some? &&
         OuterEchExt(configId, kdf, aead, encap, payload).value <= ext {
        OuterPrefixParses(ext, configId, kdf, aead, encap, payload);
      }
    }
  }

  lemma ParsedOuterWritten(ext: Bytes, configId: nat, kdf: nat, aead: nat, encap: Bytes, payload: Bytes)
    requires ParseEchExt(ext) == Outer(kdf, aead, configId, encap, payload)
    ensures OuterEchExt(configId, kdf, aead, encap, payload).Some?
    ensures OuterEchExt(configId, kdf, aead, encap, payload).value <= ext
  {
    hide Uint, UintVal, Pow256, ReadPrefixed;
    Pow256Values();
    var rest := ReadPrefixed(2, ext[6..]).value.1;
    var tail := ReadPrefixed(2, rest).value.1;
    ReadPrefixedSound(2, ext[6..]);
    ReadPrefixedSound(2, rest);
    UintValBound(ext[1..3]);
    UintValBound(ext[3..5]);
    UintValBound(ext[5..6]);
    UintOfVal(ext[1..3]);
    UintOfVal(ext[3..5]);
    UintOfVal(ext[5..6]);
    assert ext == [0] + ext[1..3] + ext[3..5] + ext[5..6] + ext[6..];
    var key, p := Uint(2, |encap|) + encap, Uint(2, |payload|) + payload;
    assert ext[6..] == key + (p + tail);
    assert ext == (([0] + Uint(2, kdf) + Uint(2, aead) + Uint(1, configId) + key) + p) + tail;
  }

  lemma OuterPrefixParses(ext: Bytes, configId: nat, kdf: nat, aead: nat, encap: Bytes, payload: Bytes)
    requires OuterEchExt(configId, kdf, aead, encap, payload).Some?
    requires OuterEchExt(configId, kdf, aead, encap, payload).value <= ext
    ensures ParseEchExt(ext) == Outer(kdf, aead, configId, encap, payload)
  {
    hide UintVal, Uint, Pow256, ReadPrefixed;
    Pow256Values();
    var w := OuterEchExt(configId, kdf, aead, encap, payload).value;
    var tail := ext[|w|..];
    assert ext == w + tail;
    var p := Prefixed(2, payload).value;
    assert ext[1..3] == Uint(2, kdf) && ext[3..5] == Uint(2, aead) && ext[5..6] == Uint(1, configId);
    assert ext[6..] == Uint(2, |encap|) + encap + (p + tail);
    UintValFits(2, kdf);
    UintValFits(2, aead);
    UintValFits(1, configId);
    ReadPrefixedWritten(2, encap, p + tail);
    ReadPrefixedWritten(2, payload, tail);
  }

  // ---- The associated data ----

  predicate OccursAt(h: Bytes, p: Bytes, j: nat) { j + |p| <= |h| && h[j..j + |p|] == p }

  /** Where bytes.Replace finds its first match at or after i. */
  function FirstIndex(h: Bytes, p: Bytes, i: nat): (k: Option<nat>)
    ensures k.Some? ==> i <= k.value && OccursAt(h, p, k.value)
    ensures forall j: nat | i <= j && OccursAt(h, p, j) :: k.Some? && k.value <= j
    decreases |h| - i
  {
    if i + |p| > |h| then None
    else if OccursAt(h, p, i) then Some(i)
    else FirstIndex(h, p, i + 1)
  }

  /** decryptECHPayload: the hello with the first occurrence of the payload zeroed. */
  function ServerAad(h: Bytes, payload: Bytes): (r: Bytes)
  {
    match FirstIndex(h, payload, 0)
    case None => h
    case Some(k) => h[..k] + Zeros(|payload|) + h[k + |payload|..]
  }

  lemma {:induction false} ShiftedZero(p: Bytes, d: nat, j: nat)
    requires 0 < d && j < |p|
    requires forall i | 0 <= i && i + d < |p| :: p[i] == p[i + d]
    requires forall i | 0 <= i < |p| && i + d >= |p| :: p[i] == 0
    ensures p[j] == 0
    decreases |p| - j
  {
    if j + d < |p| { ShiftedZero(p, d, j + d); }
  }

  /** Zeroing an earlier occurrence gives the client's data only if the payload is all zero. */
  lemma EarlierOccurrence(a: Bytes, payload: Bytes, b: Bytes, k: nat)
    requires k < |a| && OccursAt(a + payload + b, payload, k)
    requires var h := a + payload + b;
             h[..k] + Zeros(|payload|) + h[k + |payload|..] == a + Zeros(|payload|) + b
    ensures AllZero(payload)
  {
    var h, n, d := a + payload + b, |payload|, |a| - k;
    var mine, theirs := a + Zeros(n) + b, h[..k] + Zeros(n) + h[k + n..];
    forall i | 0 <= i && i + d < n ensures payload[i] == payload[i + d] {
      assert h[k..k + n][i + d] == h[|a| + i];
    }
    forall i | 0 <= i < n && i + d >= n ensures payload[i] == 0 {
      assert mine[|a| + i] == 0;
      assert theirs[|a| + i] == h[|a| + i];
    }
    forall j | 0 <= j < n ensures payload[j] == 0 { ShiftedZero(payload, d, j); }
  }

  lemma ReplaceAt(h: Bytes, p: Bytes, k: nat, a: Bytes, b: Bytes)
    requires h == a + p + b && OccursAt(h, p, k) && (k == |a| || AllZero(p))
    ensures h[..k] + Zeros(|p|) + h[k + |p|..] == a + Zeros(|p|) + b
  {
    if k == |a| {
      assert h[..k] == a && h[k + |p|..] == b;
    } else {
      assert p == Zeros(|p|);
      assert h[..k] + h[k..k + |p|] + h[k + |p|..] == h;
    }
  }

  /** The server authenticates what the client sealed against exactly when the payload does not occur
      earlier in the hello (or is all zero, when nothing changes either way). */
  lemma AadAgrees(a: Bytes, payload: Bytes, b: Bytes)
    ensures ServerAad(a + payload + b, payload) == a + Zeros(|payload|) + b <==>
            FirstIndex(a + payload + b, payload, 0) == Some(|a|) || AllZero(payload)
  {
    var h := a + payload + b;
    assert OccursAt(h, payload, |a|);
    var k := FirstIndex(h, payload, 0).value;
    hide OccursAt, AllZero;
    if AllZero(payload) || k == |a| {
      ReplaceAt(h, payload, k, a, b);
    } else if ServerAad(h, payload) == a + Zeros(|payload|) + b {
      EarlierOccurrence(a, payload, b, k);
    }
  }

  // ---- Trial decryption ----

  /** One of the server's ECH keys. usable says that its config and its private key parse; open sets up
      the HPKE recipient for a suite and an encapsulated key and opens a payload under associated data,
      None when either step fails. */
  datatype EchKey = EchKey(usable: bool, open: (nat, nat, Bytes, Bytes, Bytes) -> Option<Bytes>)

  datatype Alert = IllegalParameter | DecodeError | InternalError

  /** The handshake ends with an alert, goes on with the outer hello (which is marked as an inner one or
      is not for this server), or goes on with the decrypted inner hello. */
  datatype EchAnswer =
    | Abort(alert: Alert)
    | KeepOuter(marked: bool)
    | UseInner(hello: Hello, configId: nat, kdf: nat, aead: nat)

  ghost function Rebuild(outer: Hello, p: EchParse, encoded: Bytes): (r: EchAnswer)
    requires p.Outer?
  {
    match DecodeInner(outer, encoded)
    case None => Abort(IllegalParameter)
    case Some((inner, _)) => UseInner(inner, p.configId, p.kdf, p.aead)
  }

  function OpenWith(key: EchKey, outer: Hello, p: EchParse): (r: Option<Bytes>)
    requires p.Outer? && |outer.original| >= 4
  {
    key.open(p.kdf, p.aead, p.encap, ServerAad(outer.original[4..], p.payload), p.payload)
  }

  ghost function TryKeys(outer: Hello, p: EchParse, keys: seq<EchKey>): (r: EchAnswer)
    requires p.Outer? && |outer.original| >= 4
  {
    if keys == [] then KeepOuter(false)
    else if !keys[0].usable then Abort(InternalError)
    else
      match OpenWith(keys[0], outer, p)
      case None => TryKeys(outer, p, keys[1..])
      case Some(encoded) => Rebuild(outer, p, encoded)
  }

  ghost function ProcessEch(outer: Hello, keys: seq<EchKey>): (r: EchAnswer)
    requires |outer.original| >= 4
  {
    match ParseEchExt(outer.fields.encryptedClientHello)
    case Bad(error) => Abort(if error == Invalid then IllegalParameter else DecodeError)
    case Inner => KeepOuter(true)
    case Outer(kdf, aead, configId, encap, payload) => TryKeys(outer, Outer(kdf, aead, configId, encap, payload), keys)
  }

  /** processECHClientHello. */
  method ProcessEchClientHello(outer: Hello, keys: seq<EchKey>) returns (r: EchAnswer)
    requires |outer.original| >= 4
    ensures r == ProcessEch(outer, keys)
  {
    hide ParseEchExt, ServerAad, Reconstruct, Parsed;
    var p := ParseEchExt(outer.fields.encryptedClientHello);
    if p.Bad? { return Abort(if p.error == Invalid then IllegalParameter else DecodeError); }
    if p.Inner? { return KeepOuter(true); }
    assert keys[0..] == keys;
    for i := 0 to |keys|
      invariant ProcessEch(outer, keys) == TryKeys(outer, p, keys[i..])
    {
      assert keys[i..][1..] == keys[i + 1..];
      if !keys[i].usable { return Abort(InternalError); }
      var encoded := OpenWith(keys[i], outer, p);
      if encoded.Some? {
        var inner := DecodeInnerClientHello(outer, encoded.value);
        if inner.None? { return Abort(IllegalParameter); }
        return UseInner(inner.value.0, p.configId, p.kdf, p.aead);
      }
    }
    return KeepOuter(false);
  }

  /** The first key that opens the payload decides; when none does, the outer hello stands. */
  lemma {:induction false} KeysDecide(outer: Hello, p: EchParse, keys: seq<EchKey>, k: nat)
    requires p.Outer? && |outer.original| >= 4 && k <= |keys| && forall key | key in keys :: key.usable
    requires forall j | 0 <= j < k :: OpenWith(keys[j], outer, p) == None
    requires k < |keys| ==> OpenWith(keys[k], outer, p).Some?
    ensures TryKeys(outer, p, keys) ==
            if k == |keys| then KeepOuter(false) else Rebuild(outer, p, OpenWith(keys[k], outer, p).value)
  {
    hide OpenWith, Rebuild;
    if k > 0 {
      assert keys[0] in keys;
      assert forall j | 0 <= j < k - 1 :: keys[1..][j] == keys[j + 1];
      KeysDecide(outer, p, keys[1..], k - 1);
    } else if keys != [] {
      assert keys[0] in keys;
    }
  }

  /** The answers that do not depend on a payload: an inner extension keeps the hello as one, an unknown type is
      an illegal parameter, a truncated extension a decoding error; a server without keys ignores the offer,
      and one whose first key is unusable fails. */
  lemma AnswersWithoutPayload(outer: Hello, keys: seq<EchKey>)
    requires |outer.original| >= 4
    ensures var ext := outer.fields.encryptedClientHello;
            && (ext == [1] ==> ProcessEch(outer, keys) == KeepOuter(true))
            && (ext != [] && ext[0] > 1 ==> ProcessEch(outer, keys) == Abort(IllegalParameter))
            && (ext == [] || (ext[0] == 1 && |ext| > 1) || (ext[0] == 0 && |ext| < 10) ==>
                ProcessEch(outer, keys) == Abort(DecodeError))
            && (ParseEchExt(ext).Outer? && keys == [] ==> ProcessEch(outer, keys) == KeepOuter(false))
            && (ParseEchExt(ext).Outer? && keys != [] && !keys[0].usable ==>
                ProcessEch(outer, keys) == Abort(InternalError))
  {
    hide UintVal;
  }
}
