/** Patching the binder into a hello that is already marshalled (UtlsPreSharedKeyExtension). */
module PskPatch {
  import opened Wire
  import opened ClientHello
  import opened Ech
  import opened EchRoundTrip
  import opened EchAccept
  import opened EchBinder
  import opened EchSeal
  import opened HelloTruncation

  /** nil, an error, or io.EOF. */
  datatype Patch = Untouched | Failed | Patched

  /** PatchBuiltHello: raw is the marshalled hello with placeholder binders. An extension that writes nothing,
      or one told to keep its binders, leaves the hello as it is; so does a new binder that has not the
      shape of the placeholders. */
  method PatchBuiltHello(raw: array<Byte>, extLen: nat, skipBinderPatching: bool, binders: seq<Bytes>,
                         mac: Bytes -> Bytes)
    returns (r: Patch, newBinders: seq<Bytes>)
    requires extLen != 0 && !skipBinderPatching ==> BindersLen(binders) <= raw.Length
    requires forall b: Bytes :: |mac(b)| < 256
    modifies raw
    ensures r.Untouched? <==> extLen == 0 || skipBinderPatching
    ensures !r.Patched? ==> newBinders == binders && raw[..] == old(raw[..])
    ensures !r.Untouched? ==>
      var prefix := WithoutBinders(old(raw[..]), binders);
      && (r.Patched? <==> SameShape(binders, [mac(prefix)]))
      && (r.Patched? ==> newBinders == [mac(prefix)] && raw[..] == prefix + BinderList(newBinders))
  {
    if extLen == 0 || skipBinderPatching { return Untouched, binders; }
    r, newBinders := UpdateBinders(raw, binders, mac);
  }

  /** Everything after the early returns. */
  method UpdateBinders(raw: array<Byte>, binders: seq<Bytes>, mac: Bytes -> Bytes)
    returns (r: Patch, newBinders: seq<Bytes>)
    requires BindersLen(binders) <= raw.Length && forall b: Bytes :: |mac(b)| < 256
    modifies raw
    ensures var prefix := WithoutBinders(old(raw[..]), binders);
      if SameShape(binders, [mac(prefix)])
      then r == Patched && newBinders == [mac(prefix)] && raw[..] == prefix + BinderList(newBinders)
      else r == Failed && newBinders == binders && raw[..] == old(raw[..])
  {
    hide BinderList;
    var n := BindersLength(binders);
    var end := raw.Length - n;
    ghost var prefix := raw[..end];
    var binder := mac(raw[..end]);
    if |binders| != 1 || |binder| != |binders[0]| { return Failed, binders; }
    newBinders := [binder];
    assert SameShape(binders, newBinders);
    SameBindersLen(binders, newBinders);
    BinderListLen(newBinders);
    var list := BinderList(newBinders);
    for i := 0 to |list|
      invariant raw[..end] == prefix
      invariant forall j | 0 <= j < i :: raw[end + j] == list[j]
    {
      raw[end + i] := list[i];
    }
    assert raw[..] == raw[..end] + raw[end..];
    r := Patched;
  }

  lemma BinderListLen(bs: seq<Bytes>)
    requires forall b | b in bs :: |b| < 256
    ensures |BinderList(bs)| == BindersLen(bs)
  {
    BinderBytesLen(bs);
  }

  lemma DistinctLast(ts: seq<nat>, t: nat)
    requires Distinct(ts + [t])
    ensures t !in ts
  {
    forall i | 0 <= i < |ts| ensures ts[i] != t {
      assert (ts + [t])[i] == ts[i] && (ts + [t])[|ts|] == t;
    }
  }

  /** Replacing the last extension's pre-shared-key data keeps a block readable and changes only the
      identities and binders. */
  lemma SwapLast(pre: seq<RawExt>, d: Bytes, d': Bytes)
    requires ExtsOk(pre + [RawExt(PRE_SHARED_KEY, d)]) && PskOf(d).Some? && PskOf(d').Some?
    ensures ExtsOk(pre + [RawExt(PRE_SHARED_KEY, d')])
    ensures FieldsIn(pre + [RawExt(PRE_SHARED_KEY, d')]) == FieldsIn(pre + [RawExt(PRE_SHARED_KEY, d)]).(
                pskIdentities := PskOf(d').value.0, pskBinders := PskOf(d').value.1)
    ensures FieldsIn(pre + [RawExt(PRE_SHARED_KEY, d)]).pskIdentities == PskOf(d).value.0
  {
    hide PskOf, ServerNameOf, U16List;
    var e, e' := RawExt(PRE_SHARED_KEY, d), RawExt(PRE_SHARED_KEY, d');
    assert Types(pre + [e]) == Types(pre) + [PRE_SHARED_KEY] == Types(pre + [e']);
    DistinctLast(Types(pre), PRE_SHARED_KEY);
    assert (pre + [e])[|pre|] == e;
    forall i | 0 <= i < |pre| + 1 ensures ExtOk((pre + [e'])[i], i == |pre|) {
      if i < |pre| { assert (pre + [e'])[i] == (pre + [e])[i]; }
    }
    AssignIsLookup(pre, e);
    AssignIsLookup(pre, e');
  }

  lemma LastParses(pre: seq<RawExt>, d: Bytes)
    requires ExtsOk(pre + [RawExt(PRE_SHARED_KEY, d)])
    ensures PskOf(d).Some?
  {
    hide PskOf;
    assert (pre + [RawExt(PRE_SHARED_KEY, d)])[|pre|] == RawExt(PRE_SHARED_KEY, d);
  }

  /** The hello with another binder of the same length. */
  lemma Swapped(f: Front, pre: seq<RawExt>, id: PskIdentity, b: Bytes, b': Bytes, h: Bytes) returns (before: Bytes)
    requires PskData([id], [b]).Some? && b != [] && |b| == |b'|
    requires WriteHello(f, pre + [RawExt(PRE_SHARED_KEY, PskData([id], [b]).value)]) == Some(h)
    ensures PskData([id], [b']).Some?
    ensures h == before + BinderList([b])
    ensures |BinderList([b])| == BindersLen([b]) == BindersLen([b']) == |BinderList([b'])|
    ensures WriteHello(f, pre + [RawExt(PRE_SHARED_KEY, PskData([id], [b']).value)]) == Some(before + BinderList([b']))
  {
    hide WriteHello, PskData, BinderList, BytesBefore, IdentitiesPart, BindersLen;
    PskDataShape([id], [b], [b']);
    PskDataShape([id], [b'], [b']);
    var d, d' := PskData([id], [b]).value, PskData([id], [b']).value;
    assert pre + [RawExt(PRE_SHARED_KEY, d)] + [] == pre + [RawExt(PRE_SHARED_KEY, d)];
    assert pre + [RawExt(PRE_SHARED_KEY, d')] + [] == pre + [RawExt(PRE_SHARED_KEY, d')];
    HelloFits(f, pre, PRE_SHARED_KEY, d, []);
    HelloFits(f, pre, PRE_SHARED_KEY, d', []);
    var h' := WriteHello(f, pre + [RawExt(PRE_SHARED_KEY, d')]).value;
    HelloAround(f, pre, PRE_SHARED_KEY, d, [], h);
    HelloAround(f, pre, PRE_SHARED_KEY, d', [], h');
    var start, ids := BytesBefore(f, pre, PRE_SHARED_KEY, |d|, []), IdentitiesPart([id]);
    before := start + ids;
    Assoc(start, ids, BinderList([b]));
    Assoc(start, ids, BinderList([b']));
    NoMore(h, start + d);
    NoMore(h', start + d');
  }

  lemma NoMore(h: Bytes, s: Bytes)
    ensures WriteAll(WriteExt, []) == Some([])
    ensures h == s + [] ==> h == s
  {
  }

  /** For a hello that parses, with the extension last as uTLS demands: the patched message differs
      only in the binder, still parses, and its binder passes the server's check, whose own
      truncation recovers the bytes that were signed. */
  lemma PatchedHelloPasses(f: Front, pre: seq<RawExt>, id: PskIdentity, placeholder: Bytes, mac: Bytes -> Bytes,
                           h: Bytes)
    requires PskData([id], [placeholder]).Some? && placeholder != []
    requires WriteHello(f, pre + [RawExt(PRE_SHARED_KEY, PskData([id], [placeholder]).value)]) == Some(h)
    requires Parsed(h).Some?
    requires forall b: Bytes :: |mac(b)| == |placeholder|
    ensures BindersLen([placeholder]) <= |h|
    ensures var prefix := WithoutBinders(h, [placeholder]);
      var m, m' := Parsed(h).value, Parsed(prefix + BinderList([mac(prefix)]));
      && m'.Some? && BinderPasses(m'.value, mac)
      && m'.value == WithBinders(m, [mac(prefix)]).(original := prefix + BinderList([mac(prefix)]))
  {
    hide Parsed, WriteHello, PskData, PskOf, BinderList, ExtsOk, FieldsIn;
    var d := PskData([id], [placeholder]).value;
    var signed := Swapped(f, pre, id, placeholder, placeholder, h);
    assert WithoutBinders(h, [placeholder]) == signed;
    var b' := mac(signed);
    var before := Swapped(f, pre, id, placeholder, b', h);
    assert before == signed by { assert h[..|signed|] == signed && h[..|before|] == before; }
    var d' := PskData([id], [b']).value;
    ParsedWritten(f, pre + [RawExt(PRE_SHARED_KEY, d)]);
    LastParses(pre, d);
    PskParses([id], [placeholder]);
    PskParses([id], [b']);
    assert id in [id] && b' != [];
    assert PskWellFormed([id], [b']);
    SwapLast(pre, d, d');
    ParsedWritten(f, pre + [RawExt(PRE_SHARED_KEY, d')]);
    assert WithoutBinders(signed + BinderList([b']), [b']) == signed;
  }
}
