/** The pre-seal binder fix of computeAndUpdateOuterECHExtensionWithOuterExts, and the whole path from
    the client's inner hello to the server's binder check. */
module EchSeal {
  import opened Wire
  import opened ClientHello
  import opened Ech
  import opened EchRoundTrip
  import opened EchAccept
  import opened EchBinder
  import opened HelloTruncation

  // ---- What the expansion takes from the outer hello ----

  /** Two outer hellos that look the same to an inner hello listing these types. */
  ghost predicate AgreeOn(outer1: Hello, raw1: seq<RawExt>, outer2: Hello, raw2: seq<RawExt>, listed: seq<nat>)
  {
    && outer1.sessionId == outer2.sessionId && Types(raw1) == Types(raw2)
    && forall t | t in listed :: Lookup(raw1, t) == Lookup(raw2, t)
  }

  /** The server's answer depends on the outer hello only through its session ID, its extension types
      and the data of the listed extensions: not on the ECH payload, nor on the outer name or key. */
  lemma PayloadDoesNotMatter(m: Hello, maxNameLength: nat, outerExts: seq<nat>,
                             outer1: Hello, raw1: seq<RawExt>, outer2: Hello, raw2: seq<RawExt>)
    requires EncodeInner(m, maxNameLength, outerExts).Some? && m.fields.encryptedClientHello != []
    requires ReceivedOuter(outer1, raw1) && ReceivedOuter(outer2, raw2)
    requires IsSubseq(Listed(outerExts), Types(raw1)) && AgreeOn(outer1, raw1, outer2, raw2, Listed(outerExts))
    ensures DecodeInner(outer1, EncodeInner(m, maxNameLength, outerExts).value) ==
            DecodeInner(outer2, EncodeInner(m, maxNameLength, outerExts).value)
  {
    hide EncodeInner, Reconstruct, Parsed, WriteHello, Leading, Trailing, InnerFront, Listed, U16List;
    var listed := Listed(outerExts);
    InnerHelloAccepted(m, maxNameLength, outerExts, outer1, raw1);
    InnerHelloAccepted(m, maxNameLength, outerExts, outer2, raw2);
    assert Pick(listed, raw1) == Pick(listed, raw2);
  }

  // ---- The fix ----

  /** The client's inner hello and its encoding after the fix. outer is the outer hello with a zero
      ECH payload; mac is the binder MAC of the session. */
  ghost function Fixed(m: Hello, maxNameLength: nat, outerExts: seq<nat>, outer: Hello,
                       mac: Bytes -> Bytes): (r: (Hello, Bytes))
    requires EncodeInner(m, maxNameLength, outerExts).Some? && m.fields.pskBinders != []
  {
    var encoded := EncodeInner(m, maxNameLength, outerExts).value;
    match DecodeInner(outer, encoded)
    case None => (m, encoded)
    case Some((d, recon)) =>
      if d.fields.pskBinders == [] then (m, encoded) else
      BindersFit(recon);
      var correct := mac(WithoutBinders(recon, d.fields.pskBinders));
      if d.fields.pskBinders[0] == correct then (m, encoded) else
      var m' := WithBinders(m, m.fields.pskBinders[0 := correct]);
      match EncodeInner(m', maxNameLength, outerExts)
      case None => (m', encoded)
      case Some(encoded') => (m', encoded')
  }

  method BindersLength(binders: seq<Bytes>) returns (n: nat)
    ensures n == BindersLen(binders)
  {
    n := 2;
    var i := |binders|;
    assert binders[i..] == [];
    while i > 0
      invariant 0 <= i <= |binders| && n == BindersLen(binders[i..])
    {
      i := i - 1;
      assert binders[i..][1..] == binders[i + 1..];
      n := n + 1 + |binders[i]|;
    }
    assert binders[0..] == binders;
  }

  method FixBinder(m: Hello, maxNameLength: nat, outerExts: seq<nat>, outer: Hello, mac: Bytes -> Bytes)
    returns (m': Hello, encoded: Bytes)
    requires EncodeInner(m, maxNameLength, outerExts).Some? && m.fields.pskBinders != []
    ensures (m', encoded) == Fixed(m, maxNameLength, outerExts, outer, mac)
  {
    hide EncodeInner, Reconstruct, Parsed;
    m', encoded := m, EncodeInner(m, maxNameLength, outerExts).value;
    var decoded := DecodeInnerClientHello(outer, encoded);
    if decoded.None? { return; }
    var (d, recon) := decoded.value;
    var n := BindersLength(d.fields.pskBinders);
    if d.fields.pskBinders == [] { return; }
    BindersFit(recon);
    var correct := mac(recon[..|recon| - n]);
    if d.fields.pskBinders[0] != correct {
      m' := WithBinders(m, m.fields.pskBinders[0 := correct]);
      var again := EncodeInner(m', maxNameLength, outerExts);
      if again.Some? { encoded := again.value; }
    }
  }

  /** The check of the server's checkForResumption for one identity, no HelloRetryRequest before it. */
  ghost predicate BinderPasses(h: Hello, mac: Bytes -> Bytes)
  {
    && |h.fields.pskIdentities| == 1 && |h.fields.pskBinders| == 1 && BindersLen(h.fields.pskBinders) <= |h.original|
    && h.fields.pskBinders[0] == mac(WithoutBinders(h.original, h.fields.pskBinders))
  }

  /** The inner hello as the server of outer2 will hold it after the fix against outer1. */
  lemma FixedIsAccepted(m: Hello, maxNameLength: nat, outerExts: seq<nat>, mac: Bytes -> Bytes, hashLen: nat,
                        outer: Hello, raw: seq<RawExt>)
    requires EncodeInner(m, maxNameLength, outerExts).Some? && ReceivedOuter(outer, raw)
    requires m.fields.encryptedClientHello != [] && IsSubseq(Listed(outerExts), Types(raw))
    requires |m.fields.pskIdentities| == 1 && |m.fields.pskBinders| == 1 && |m.fields.pskBinders[0]| == hashLen
    requires 0 < hashLen && forall b: Bytes :: |mac(b)| == hashLen
    requires DecodeInner(outer, EncodeInner(m, maxNameLength, outerExts).value).Some?
    ensures var (m', encoded) := Fixed(m, maxNameLength, outerExts, outer, mac);
            && m' == WithBinders(m, m'.fields.pskBinders) && SameShape(m.fields.pskBinders, m'.fields.pskBinders)
            && EncodeInner(m', maxNameLength, outerExts) == Some(encoded)
            && |encoded| == |EncodeInner(m, maxNameLength, outerExts).value|
            && DecodeInner(outer, encoded).Some? && BinderPasses(DecodeInner(outer, encoded).value.0, mac)
  {
    hide EncodeInner, Expanded, WriteHello, Parsed, Reconstruct;
    var listed := Listed(outerExts);
    InnerHelloAccepted(m, maxNameLength, outerExts, outer, raw);
    var recon := Expanded(m, outer, raw, listed).value;
    BindersFit(recon);
    var bs := [mac(WithoutBinders(recon, m.fields.pskBinders))];
    EncodingLength(m, bs, maxNameLength, outerExts);
    var prefix := ExpandedPrefix(m, bs, outer, raw, listed);
    assert recon == prefix + BinderList(m.fields.pskBinders);
    assert WithoutBinders(recon, m.fields.pskBinders) == prefix;
    assert m.fields.pskBinders[0 := bs[0]] == bs;
    InnerHelloAccepted(WithBinders(m, bs), maxNameLength, outerExts, outer, raw);
    assert WithoutBinders(prefix + BinderList(bs), bs) == prefix;
    if m.fields.pskBinders[0] == bs[0] {
      assert m.fields.pskBinders == bs && WithBinders(m, bs) == m;
    }
  }
}
