/** The pre-shared-key binder of an inner hello: it is computed over the expansion the server will
    rebuild, before the ECH payload exists, and must still be right once the payload is in place. */
module EchBinder {
  import opened Wire
  import opened ClientHello
  import opened Ech
  import opened EchRoundTrip
  import opened EchAccept
  import opened HelloTruncation

  // ---- The bytes around one extension ----

  /** Everything in a hello before the data of the extension that follows pre. */
  function BytesBefore(f: Front, pre: seq<RawExt>, t: nat, n: nat, post: seq<RawExt>): (r: Bytes)
    requires WriteFront(f).Some? && WriteAll(WriteExt, pre).Some? && WriteAll(WriteExt, post).Some?
    ensures |r| >= 4
  {
    var front, x, y := WriteFront(f).value, WriteAll(WriteExt, pre).value, WriteAll(WriteExt, post).value;
    var total := |x| + 4 + n + |y|;
    [1] + Uint(3, |front| + 2 + total) + front + Uint(2, total) + x + Uint(2, t) + Uint(2, n)
  }

  lemma FrontSize(f: Front)
    requires WriteFront(f).Some?
    ensures |WriteFront(f).value| < 0x1_0400
  {
    Pow256Values();
  }

  lemma HelloValue(f: Front, exts: seq<RawExt>)
    ensures WriteHello(f, exts).Some? <==>
            WriteFront(f).Some? && WriteAll(WriteExt, exts).Some? && |WriteAll(WriteExt, exts).value| < 0x1_0000
    ensures WriteHello(f, exts).Some? ==>
            (var front, all := WriteFront(f).value, WriteAll(WriteExt, exts).value;
             WriteHello(f, exts).value == [1] + Uint(3, |front| + 2 + |all|) + front + Uint(2, |all|) + all)
  {
    Pow256Values();
    hide Pow256, Uint;
    if WriteFront(f).Some? && WriteAll(WriteExt, exts).Some? && |WriteAll(WriteExt, exts).value| < 0x1_0000 {
      FrontSize(f);
      var front, all := WriteFront(f).value, WriteAll(WriteExt, exts).value;
      var block := Uint(2, |all|) + all;
      assert |front + block| == |front| + 2 + |all|;
      assert [1] + (Uint(3, |front + block|) + (front + block)) ==
             [1] + Uint(3, |front| + 2 + |all|) + front + Uint(2, |all|) + all;
    }
  }

  lemma ExtsAround(pre: seq<RawExt>, t: nat, d: Bytes, post: seq<RawExt>)
    ensures WriteAll(WriteExt, pre + [RawExt(t, d)] + post).Some? <==>
            WriteAll(WriteExt, pre).Some? && WriteAll(WriteExt, post).Some? && t < 0x1_0000 && |d| < 0x1_0000
    ensures WriteAll(WriteExt, pre + [RawExt(t, d)] + post).Some? ==>
            WriteAll(WriteExt, pre + [RawExt(t, d)] + post).value ==
            WriteAll(WriteExt, pre).value + Uint(2, t) + Uint(2, |d|) + d + WriteAll(WriteExt, post).value
  {
    Pow256Values();
    var e := RawExt(t, d);
    WriteAllAppend(WriteExt, pre + [e], post);
    WriteAllAppend(WriteExt, pre, [e]);
    assert WriteAll(WriteExt, [e]) == if WriteExt(e).Some? then Some(WriteExt(e).value + []) else None;
    if WriteAll(WriteExt, pre + [e] + post).Some? {
      var x, y := WriteAll(WriteExt, pre).value, WriteAll(WriteExt, post).value;
      assert x + (Uint(2, t) + (Uint(2, |d|) + d) + []) + y == x + Uint(2, t) + Uint(2, |d|) + d + y;
    }
  }

  /** Whether a hello can be written depends on the length of an extension's data, not on the data. */
  lemma HelloFits(f: Front, pre: seq<RawExt>, t: nat, d: Bytes, post: seq<RawExt>)
    ensures WriteHello(f, pre + [RawExt(t, d)] + post).Some? <==>
            (&& WriteFront(f).Some? && WriteAll(WriteExt, pre).Some? && WriteAll(WriteExt, post).Some? && t < 0x1_0000
             && |WriteAll(WriteExt, pre).value| + 4 + |d| + |WriteAll(WriteExt, post).value| < 0x1_0000)
  {
    HelloValue(f, pre + [RawExt(t, d)] + post);
    ExtsAround(pre, t, d, post);
  }

  lemma HelloAround(f: Front, pre: seq<RawExt>, t: nat, d: Bytes, post: seq<RawExt>, h: Bytes)
    requires WriteHello(f, pre + [RawExt(t, d)] + post) == Some(h)
    ensures WriteFront(f).Some? && WriteAll(WriteExt, pre).Some? && WriteAll(WriteExt, post).Some?
    ensures h == BytesBefore(f, pre, t, |d|, post) + d + WriteAll(WriteExt, post).value
  {
    hide WriteHello, WriteFront, WriteAll, Uint;
    HelloValue(f, pre + [RawExt(t, d)] + post);
    ExtsAround(pre, t, d, post);
    var front, x, y := WriteFront(f).value, WriteAll(WriteExt, pre).value, WriteAll(WriteExt, post).value;
    var total := |x| + 4 + |d| + |y|;
    var all := WriteAll(WriteExt, pre + [RawExt(t, d)] + post).value;
    assert |all| == total;
    Regroup([1] + Uint(3, |front| + 2 + total) + front + Uint(2, total), x, Uint(2, t), Uint(2, |d|), d, y);
  }

  lemma Regroup(a: Bytes, x: Bytes, u: Bytes, v: Bytes, d: Bytes, y: Bytes)
    ensures a + (x + u + v + d + y) == (a + x + u + v) + d + y
  {
  }

  // ---- Binders of the same lengths ----

  predicate SameShape(bs: seq<Bytes>, cs: seq<Bytes>)
  {
    |bs| == |cs| && forall i | 0 <= i < |bs| :: |bs[i]| == |cs[i]|
  }

  lemma {:induction false} SameBindersLen(bs: seq<Bytes>, cs: seq<Bytes>)
    requires SameShape(bs, cs)
    ensures BindersLen(bs) == BindersLen(cs)
  {
    if bs != [] { SameBindersLen(bs[1..], cs[1..]); }
  }

  /** The identities part of a pre_shared_key extension. */
  function IdentitiesPart(ids: seq<PskIdentity>): (r: Bytes)
  {
    match WriteAll(WriteIdentity, ids)
    case None => []
    case Some(b) => Uint(2, |b|) + b
  }

  lemma PskDataShape(ids: seq<PskIdentity>, bs: seq<Bytes>, cs: seq<Bytes>)
    requires PskData(ids, bs).Some? && SameShape(bs, cs)
    ensures PskData(ids, bs).value == IdentitiesPart(ids) + BinderList(bs) && |BinderList(bs)| == BindersLen(bs)
    ensures PskData(ids, cs) == Some(IdentitiesPart(ids) + BinderList(cs)) && |BinderList(cs)| == BindersLen(bs)
  {
    BinderBytesLen(bs);
    BinderBytesLen(cs);
    SameBindersLen(bs, cs);
    forall c | c in cs ensures |c| < 256 {
      var i :| 0 <= i < |cs| && cs[i] == c;
      assert bs[i] in bs;
    }
  }

  function WithBinders(m: Hello, bs: seq<Bytes>): (r: Hello)
  {
    m.(fields := m.fields.(pskBinders := bs))
  }

  lemma WithBindersKeeps(m: Hello, bs: seq<Bytes>, listed: seq<nat>, sessionId: Bytes)
    ensures var m' := WithBinders(m, bs);
            && Leading(m') == Leading(m) && InlineVersions(m', listed) == InlineVersions(m, listed)
            && InnerFront(m', sessionId) == InnerFront(m, sessionId)
  {
  }

  lemma InnerExtsSplit(m: Hello, listed: seq<nat>)
    requires m.fields.pskIdentities != [] && Leading(m).Some? && Reference(listed).Some?
    ensures InnerExts(m, listed) == (match PskData(m.fields.pskIdentities, m.fields.pskBinders)
                                     case None => None
                                     case Some(d) =>
                                       Some(Leading(m).value + Reference(listed).value + InlineVersions(m, listed)
                                            + [RawExt(PRE_SHARED_KEY, d)] + []))
  {
    if PskData(m.fields.pskIdentities, m.fields.pskBinders).Some? {
      var a, b, c := Leading(m).value + Reference(listed).value, InlineVersions(m, listed), PskExts(m).value;
      assert a + (b + c) == a + b + c + [];
    }
  }

  lemma RebuiltSplit(m: Hello, raw: seq<RawExt>, listed: seq<nat>)
    requires m.fields.pskIdentities != [] && Leading(m).Some?
    ensures Rebuilt(m, raw, listed) == (match PskData(m.fields.pskIdentities, m.fields.pskBinders)
                                        case None => None
                                        case Some(d) =>
                                          Some(Leading(m).value + Pick(listed, raw) + InlineVersions(m, listed)
                                               + [RawExt(PRE_SHARED_KEY, d)] + []))
  {
    if PskData(m.fields.pskIdentities, m.fields.pskBinders).Some? {
      var a, b, c := Leading(m).value + Pick(listed, raw), InlineVersions(m, listed), PskExts(m).value;
      assert a + (b + c) == a + b + c + [];
    }
  }

  lemma BodyLength(f: Front, exts: seq<RawExt>, exts': seq<RawExt>)
    requires Body(f, exts).Some? && WriteAll(WriteExt, exts').Some?
    requires |WriteAll(WriteExt, exts).value| == |WriteAll(WriteExt, exts').value|
    ensures Body(f, exts').Some? && |Body(f, exts').value| == |Body(f, exts).value|
  {
  }

  lemma InnerExtsLength(m: Hello, bs: seq<Bytes>, listed: seq<nat>)
    requires InnerExts(m, listed).Some? && WriteAll(WriteExt, InnerExts(m, listed).value).Some?
    requires m.fields.pskIdentities != [] && SameShape(m.fields.pskBinders, bs)
    ensures InnerExts(WithBinders(m, bs), listed).Some?
    ensures WriteAll(WriteExt, InnerExts(WithBinders(m, bs), listed).value).Some?
    ensures |WriteAll(WriteExt, InnerExts(m, listed).value).value| ==
            |WriteAll(WriteExt, InnerExts(WithBinders(m, bs), listed).value).value|
  {
    WithBindersKeeps(m, bs, listed, []);
    PskDataShape(m.fields.pskIdentities, m.fields.pskBinders, bs);
    InnerExtsSplit(m, listed);
    InnerExtsSplit(WithBinders(m, bs), listed);
    var pre := Leading(m).value + Reference(listed).value + InlineVersions(m, listed);
    ExtsAround(pre, PRE_SHARED_KEY, PskData(m.fields.pskIdentities, m.fields.pskBinders).value, []);
    ExtsAround(pre, PRE_SHARED_KEY, PskData(m.fields.pskIdentities, bs).value, []);
  }

  /** Replacing binders by binders of the same lengths changes neither whether the inner hello can be
      encoded nor the length of its encoding. */
  lemma EncodingLength(m: Hello, bs: seq<Bytes>, maxNameLength: nat, outerExts: seq<nat>)
    requires EncodeInner(m, maxNameLength, outerExts).Some?
    requires m.fields.pskIdentities != [] && SameShape(m.fields.pskBinders, bs)
    ensures EncodeInner(WithBinders(m, bs), maxNameLength, outerExts).Some?
    ensures |EncodeInner(WithBinders(m, bs), maxNameLength, outerExts).value| ==
            |EncodeInner(m, maxNameLength, outerExts).value|
  {
    hide WriteAll, WriteFront, Leading, PskData, InnerFront, Listed;
    var m', listed := WithBinders(m, bs), Listed(outerExts);
    WithBindersKeeps(m, bs, listed, []);
    InnerExtsLength(m, bs, listed);
    BodyLength(InnerFront(m, []).value, InnerExts(m, listed).value, InnerExts(m', listed).value);
  }

  /** The extensions of the expansion before pre_shared_key. */
  function BeforePsk(m: Hello, raw: seq<RawExt>, listed: seq<nat>): (r: seq<RawExt>)
    requires Leading(m).Some?
  {
    Leading(m).value + Pick(listed, raw) + InlineVersions(m, listed)
  }

  /** The expansion up to the binder list, of which only the length n is known. */
  function PskPrefix(m: Hello, outer: Hello, raw: seq<RawExt>, listed: seq<nat>, n: nat): (r: Bytes)
    requires InnerFront(m, outer.sessionId).Some? && WriteFront(InnerFront(m, outer.sessionId).value).Some?
    requires Leading(m).Some? && WriteAll(WriteExt, BeforePsk(m, raw, listed)).Some?
  {
    var part := IdentitiesPart(m.fields.pskIdentities);
    BytesBefore(InnerFront(m, outer.sessionId).value, BeforePsk(m, raw, listed), PRE_SHARED_KEY, |part| + n, []) + part
  }

  lemma ExpandedForm(m: Hello, outer: Hello, raw: seq<RawExt>, listed: seq<nat>)
    requires Expanded(m, outer, raw, listed).Some? && m.fields.pskIdentities != []
    ensures InnerFront(m, outer.sessionId).Some? && WriteFront(InnerFront(m, outer.sessionId).value).Some?
    ensures Leading(m).Some? && WriteAll(WriteExt, BeforePsk(m, raw, listed)).Some?
    ensures Expanded(m, outer, raw, listed).value ==
            PskPrefix(m, outer, raw, listed, BindersLen(m.fields.pskBinders)) + BinderList(m.fields.pskBinders)
    ensures |BinderList(m.fields.pskBinders)| == BindersLen(m.fields.pskBinders)
  {
    hide WriteHello, WriteFront, BytesBefore;
    RebuiltSplit(m, raw, listed);
    var d := PskData(m.fields.pskIdentities, m.fields.pskBinders).value;
    HelloAround(InnerFront(m, outer.sessionId).value, BeforePsk(m, raw, listed), PRE_SHARED_KEY, d, [],
                Expanded(m, outer, raw, listed).value);
    PskDataShape(m.fields.pskIdentities, m.fields.pskBinders, m.fields.pskBinders);
    var before := BytesBefore(InnerFront(m, outer.sessionId).value, BeforePsk(m, raw, listed), PRE_SHARED_KEY, |d|, []);
    Assoc(before, IdentitiesPart(m.fields.pskIdentities), BinderList(m.fields.pskBinders));
  }

  lemma ExpandedStillFits(m: Hello, bs: seq<Bytes>, outer: Hello, raw: seq<RawExt>, listed: seq<nat>)
    requires Expanded(m, outer, raw, listed).Some?
    requires m.fields.pskIdentities != [] && SameShape(m.fields.pskBinders, bs)
    ensures Expanded(WithBinders(m, bs), outer, raw, listed).Some?
  {
    var m' := WithBinders(m, bs);
    WithBindersKeeps(m, bs, listed, outer.sessionId);
    PskDataShape(m.fields.pskIdentities, m.fields.pskBinders, bs);
    RebuiltSplit(m, raw, listed);
    RebuiltSplit(m', raw, listed);
    var f := InnerFront(m, outer.sessionId).value;
    HelloFits(f, BeforePsk(m, raw, listed), PRE_SHARED_KEY,
              PskData(m.fields.pskIdentities, m.fields.pskBinders).value, []);
    HelloFits(f, BeforePsk(m, raw, listed), PRE_SHARED_KEY, PskData(m.fields.pskIdentities, bs).value, []);
  }

  /** Everything in the expansion before the binder list is the same whatever the binders are. */
  lemma ExpandedPrefix(m: Hello, bs: seq<Bytes>, outer: Hello, raw: seq<RawExt>, listed: seq<nat>)
    returns (prefix: Bytes)
    requires Expanded(m, outer, raw, listed).Some?
    requires m.fields.pskIdentities != [] && SameShape(m.fields.pskBinders, bs)
    ensures Expanded(m, outer, raw, listed) == Some(prefix + BinderList(m.fields.pskBinders))
    ensures Expanded(WithBinders(m, bs), outer, raw, listed) == Some(prefix + BinderList(bs))
    ensures |BinderList(m.fields.pskBinders)| == |BinderList(bs)| == BindersLen(m.fields.pskBinders) == BindersLen(bs)
  {
    hide WriteHello, WriteFront, BytesBefore;
    WithBindersKeeps(m, bs, listed, outer.sessionId);
    ExpandedStillFits(m, bs, outer, raw, listed);
    ExpandedForm(m, outer, raw, listed);
    ExpandedForm(WithBinders(m, bs), outer, raw, listed);
    SameBindersLen(m.fields.pskBinders, bs);
    prefix := PskPrefix(m, outer, raw, listed, BindersLen(bs));
  }
}
