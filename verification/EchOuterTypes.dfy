/** The two ways the client lists its outer extensions before it compresses the inner hello: the
    offset-driven scan of extractExtensionTypes, and extensionsList, which asks each extension for its
    first two bytes. Either list refers to the outer hello's extensions in the order they stand there,
    which is what the server's forward-only expansion needs. */
module EchOuterTypes {
  import opened Wire
  import opened ClientHello
  import opened Ech
  import opened EchRoundTrip
  import opened HelloTruncation

  // ---- Subsequences ----

  lemma {:induction false} SubseqTail(xs: seq<nat>, ys: seq<nat>)
    requires xs != [] && IsSubseq(xs, ys)
    ensures IsSubseq(xs[1..], ys)
    decreases |ys|
  {
    if xs[0] != ys[0] { SubseqTail(xs, ys[1..]); }
    if |xs| > 1 && xs[1] == ys[0] { SubseqTail(xs[1..], ys[1..]); }
  }

  lemma SubseqSkip(xs: seq<nat>, ys: seq<nat>)
    requires ys != [] && IsSubseq(xs, ys[1..])
    ensures IsSubseq(xs, ys)
  {
    if xs != [] && xs[0] == ys[0] { SubseqTail(xs, ys[1..]); }
  }

  /** What the inner hello refers to keeps the order of the list it is drawn from. */
  lemma {:induction false} ListedIsSubseq(ts: seq<nat>)
    ensures IsSubseq(Listed(ts), ts)
  {
    hide Compressible;
    if ts != [] {
      ListedIsSubseq(ts[1..]);
      if Compressible(ts[0]) {
        assert Listed(ts)[1..] == Listed(ts[1..]);
      } else {
        assert Listed(ts) == Listed(ts[1..]);
        SubseqSkip(Listed(ts), ts);
      }
    }
  }

  lemma {:induction false} ListedConcat(xs: seq<nat>, ys: seq<nat>)
    ensures Listed(xs + ys) == Listed(xs) + Listed(ys)
  {
    hide Compressible;
    if xs == [] {
      assert xs + ys == ys;
    } else {
      assert (xs + ys)[1..] == xs[1..] + ys;
      ListedConcat(xs[1..], ys);
    }
  }

  // ---- extensionsList ----

  /** One extension of the client: what it writes, or None when it writes nothing. */
  type Slot = Option<RawExt>

  /** The first two bytes an extension leaves in extensionsList's zeroed 2000-byte buffer. */
  function SlotType(s: Slot): (t: nat)
  {
    if s.None? || 4 + |s.value.data| > 2000 then 0 else s.value.typ
  }

  function SlotTypes(slots: seq<Slot>): (ts: seq<nat>)
  {
    if slots == [] then []
    else (if SlotType(slots[0]) == SUPPORTED_VERSIONS then [] else [SlotType(slots[0])]) + SlotTypes(slots[1..])
  }

  lemma {:induction false} SlotTypesAppend(slots: seq<Slot>, s: Slot)
    ensures SlotTypes(slots + [s]) ==
            SlotTypes(slots) + if SlotType(s) == SUPPORTED_VERSIONS then [] else [SlotType(s)]
  {
    hide SlotType;
    if slots == [] {
      assert slots + [s] == [s] && [s][1..] == [];
    } else {
      assert (slots + [s])[1..] == slots[1..] + [s];
      SlotTypesAppend(slots[1..], s);
    }
  }

  method ExtensionsList(slots: seq<Slot>) returns (outerExts: seq<nat>)
    ensures outerExts == SlotTypes(slots)
  {
    outerExts := [];
    for i := 0 to |slots|
      invariant outerExts == SlotTypes(slots[..i])
    {
      assert slots[..i + 1] == slots[..i] + [slots[i]];
      SlotTypesAppend(slots[..i], slots[i]);
      if SlotType(slots[i]) != SUPPORTED_VERSIONS {
        outerExts := outerExts + [SlotType(slots[i])];
      }
    }
    assert slots[..|slots|] == slots;
  }

  /** The filters run over the list before it is used: encrypted_client_hello, pre_shared_key or early_data. */
  function Kept(ts: seq<nat>, dropped: set<nat>): (r: seq<nat>)
  {
    if ts == [] then [] else (if ts[0] in dropped then [] else [ts[0]]) + Kept(ts[1..], dropped)
  }

  /** The extensions that reach the wire. */
  function Written(slots: seq<Slot>): (exts: seq<RawExt>)
  {
    if slots == [] then [] else (if slots[0].Some? then [slots[0].value] else []) + Written(slots[1..])
  }

  lemma {:induction false} WrittenConcat(xs: seq<Slot>, ys: seq<Slot>)
    ensures Written(xs + ys) == Written(xs) + Written(ys)
  {
    if xs == [] {
      assert xs + ys == ys;
    } else {
      assert (xs + ys)[1..] == xs[1..] + ys;
      WrittenConcat(xs[1..], ys);
    }
  }

  /** Between taking the list and writing the hello the client only rewrites extensions the inner
      hello cannot refer to: the ECH payload, the padding, the outer name, the outer pre-shared key. */
  predicate SameReferences(before: seq<Slot>, after: seq<Slot>)
  {
    |before| == |after| &&
    forall i | 0 <= i < |before| :: before[i].Some? && Compressible(before[i].value.typ) ==> after[i] == before[i]
  }

  /** The list taken by extensionsList, whatever is then filtered out of it, refers to the written
      extensions in order. */
  lemma {:induction false} SlotsInOrder(before: seq<Slot>, after: seq<Slot>, dropped: set<nat>)
    requires SameReferences(before, after)
    ensures IsSubseq(Listed(Kept(SlotTypes(before), dropped)), Types(Written(after)))
  {
    hide Compressible;
    if before != [] {
      SlotsInOrder(before[1..], after[1..], dropped);
      FirstSlot(before, dropped);
      var more := Listed(Kept(SlotTypes(before[1..]), dropped));
      var t := SlotType(before[0]);
      if after[0].Some? {
        assert Types(Written(after))[1..] == Types(Written(after[1..]));
        SubseqSkip(more, Types(Written(after)));
      } else {
        assert Written(after) == Written(after[1..]);
      }
      if Listed(Kept(SlotTypes(before), dropped)) != more {
        assert [t] + more == Listed(Kept(SlotTypes(before), dropped));
        assert ([t] + more)[1..] == more;
      }
    }
  }

  /** The first extension either is referred to, and then was read in full, or leaves the list as it was. */
  lemma FirstSlot(slots: seq<Slot>, dropped: set<nat>)
    requires slots != []
    ensures var more := Listed(Kept(SlotTypes(slots[1..]), dropped));
            || Listed(Kept(SlotTypes(slots), dropped)) == more
            || (&& Listed(Kept(SlotTypes(slots), dropped)) == [SlotType(slots[0])] + more
                && slots[0].Some? && SlotType(slots[0]) == slots[0].value.typ && Compressible(slots[0].value.typ))
  {
    var t, ts := SlotType(slots[0]), SlotTypes(slots[1..]);
    if t == SUPPORTED_VERSIONS {
      assert SlotTypes(slots) == ts;
    } else {
      assert SlotTypes(slots) == [t] + ts && ([t] + ts)[1..] == ts;
      if t in dropped {
        assert Kept(SlotTypes(slots), dropped) == Kept(ts, dropped);
      } else {
        assert Kept(SlotTypes(slots), dropped) == [t] + Kept(ts, dropped);
        assert ([t] + Kept(ts, dropped))[1..] == Kept(ts, dropped);
      }
    }
  }

  /** An extension the list offers: written whole in 2000 bytes, not supported_versions, not filtered out, and of a
      type the inner hello may refer to. */
  predicate Offered(s: Slot, dropped: set<nat>)
  {
    && s.Some? && |s.value.data| <= 1996 && s.value.typ != 43 && s.value.typ !in dropped
    && Compressible(s.value.typ)
  }

  /** Nothing else is referred to, and nothing is left out. */
  lemma {:induction false} SlotsExactly(slots: seq<Slot>, dropped: set<nat>, t: nat)
    ensures t in Listed(Kept(SlotTypes(slots), dropped)) <==>
            exists i | 0 <= i < |slots| :: Offered(slots[i], dropped) && slots[i].value.typ == t
  {
    hide Compressible, Offered;
    if slots != [] {
      var more := slots[1..];
      SlotsExactly(more, dropped, t);
      SlotAdds(slots, dropped);
      assert forall i | 1 <= i < |slots| :: slots[i] == more[i - 1];
      assert forall i | 0 <= i < |more| :: more[i] == slots[i + 1];
    }
  }

  lemma SlotAdds(slots: seq<Slot>, dropped: set<nat>)
    requires slots != []
    ensures Listed(Kept(SlotTypes(slots), dropped)) ==
            (if Offered(slots[0], dropped) then [slots[0].value.typ] else []) +
            Listed(Kept(SlotTypes(slots[1..]), dropped))
  {
    var t, ts := SlotType(slots[0]), SlotTypes(slots[1..]);
    assert [] + Listed(Kept(ts, dropped)) == Listed(Kept(ts, dropped));
    if t == SUPPORTED_VERSIONS {
      assert SlotTypes(slots) == ts;
    } else {
      assert SlotTypes(slots) == [t] + ts && ([t] + ts)[1..] == ts;
      if t in dropped {
        assert Kept(SlotTypes(slots), dropped) == Kept(ts, dropped);
      } else {
        assert Kept(SlotTypes(slots), dropped) == [t] + Kept(ts, dropped);
        assert ([t] + Kept(ts, dropped))[1..] == Kept(ts, dropped);
      }
    }
  }

  // ---- extractExtensionTypes ----

  /** The two-byte number at an offset. */
  function U16At(h: Bytes, i: nat): (n: nat)
    requires i + 2 <= |h|
  {
    256 * (h[i] as int) + h[i + 1]
  }

  function TypesFrom(h: Bytes, offset: nat, end: nat): (r: seq<nat>)
    decreases |h| - offset
  {
    if offset + 4 <= |h| && offset < end
    then [U16At(h, offset)] + TypesFrom(h, offset + 4 + U16At(h, offset + 2), end)
    else []
  }

  /** Where the extension block's length field stands, or None where the scan gives up. */
  function BlockOffset(h: Bytes): (r: Option<nat>)
    ensures r.Some? ==> r.value + 2 <= |h|
  {
    if |h| < 38 then None else
    var a := 35 + h[34] as int;
    if a + 2 > |h| then None else
    var b := a + 2 + U16At(h, a);
    if b + 1 > |h| then None else
    var c := b + 1 + h[b] as int;
    if c + 2 > |h| then None else Some(c)
  }

  function ScannedTypes(h: Bytes): (r: seq<nat>)
  {
    match BlockOffset(h)
    case None => []
    case Some(c) => TypesFrom(h, c + 2, c + 2 + U16At(h, c))
  }

  lemma TypesStep(h: Bytes, done: seq<nat>, offset: nat, end: nat)
    ensures offset + 4 <= |h| && offset < end ==>
            done + TypesFrom(h, offset, end) ==
            (done + [U16At(h, offset)]) + TypesFrom(h, offset + 4 + U16At(h, offset + 2), end)
    ensures !(offset + 4 <= |h| && offset < end) ==> done + TypesFrom(h, offset, end) == done
  {
    hide U16At;
  }

  /** extractExtensionTypes on a hello without its four-byte header. */
  method ExtractExtensionTypes(h: Bytes) returns (exts: seq<nat>)
    ensures exts == ScannedTypes(h)
  {
    hide BlockOffset, U16At, TypesFrom;
    var block := BlockOffset(h);
    if block.None? { return []; }
    var offset := block.value + 2;
    var end := offset + U16At(h, block.value);
    exts := [];
    while offset + 4 <= |h| && offset < end
      invariant ScannedTypes(h) == exts + TypesFrom(h, offset, end)
      decreases |h| - offset
    {
      TypesStep(h, exts, offset, end);
      exts := exts + [U16At(h, offset)];
      offset := offset + 4 + U16At(h, offset + 2);
    }
    TypesStep(h, exts, offset, end);
  }

  lemma U16AtVal(h: Bytes, i: nat, n: nat)
    requires i + 2 <= |h| && n < 0x1_0000 && h[i..i + 2] == Uint(2, n)
    ensures U16At(h, i) == n
  {
    Pow256Values();
    UintValFits(2, n);
    var b := h[i..i + 2];
    assert b[..1] == [b[0]];
    assert UintVal(b) == 256 * UintVal([b[0]]) + b[1];
  }

  lemma SliceOfSlice(h: Bytes, i: nat, r: Bytes, j: nat, k: nat)
    requires i <= |h| && h[i..] == r && j <= k <= |r|
    ensures h[i + j..i + k] == r[j..k] && h[i + k..] == r[k..]
  {
  }

  lemma WrittenHead(exts: seq<RawExt>, r: Bytes)
    requires exts != [] && WriteAll(WriteExt, exts) == Some(r)
    ensures var e := exts[0];
            && e.typ < 0x1_0000 && |e.data| < 0x1_0000 && |r| >= 4 + |e.data|
            && r[..2] == Uint(2, e.typ) && r[2..4] == Uint(2, |e.data|)
            && WriteAll(WriteExt, exts[1..]) == Some(r[4 + |e.data|..])
  {
    Pow256Values();
    hide Uint;
    var e, tail := exts[0], WriteAll(WriteExt, exts[1..]).value;
    assert r == (Uint(2, e.typ) + (Uint(2, |e.data|) + e.data)) + tail;
  }

  lemma NothingWritten()
    ensures WriteAll(WriteExt, []) == Some([])
  {
  }

  lemma {:induction false} ScanBlock(h: Bytes, offset: nat, exts: seq<RawExt>)
    requires offset <= |h| && WriteAll(WriteExt, exts) == Some(h[offset..])
    ensures TypesFrom(h, offset, |h|) == Types(exts)
    decreases |exts|
  {
    hide U16At, WriteAll, Uint;
    NothingWritten();
    if exts != [] {
      var e, r := exts[0], h[offset..];
      WrittenHead(exts, r);
      SliceOfSlice(h, offset, r, 0, 2);
      SliceOfSlice(h, offset, r, 2, 4);
      SliceOfSlice(h, offset, r, 4, 4 + |e.data|);
      U16AtVal(h, offset, e.typ);
      U16AtVal(h, offset + 2, |e.data|);
      ScanBlock(h, offset + 4 + |e.data|, exts[1..]);
      assert Types(exts) == [e.typ] + Types(exts[1..]);
    }
  }

  /** A length-prefixed field at offset i. */
  lemma FieldAt(h: Bytes, i: nat, w: nat, r: Bytes, body: Bytes, rest: Bytes)
    requires i <= |h| && h[i..] == r && ReadPrefixed(w, r) == Some((body, rest))
    ensures i + w + |body| <= |h| && |body| < Pow256(w)
    ensures h[i..i + w] == Uint(w, |body|) && h[i + w + |body|..] == rest
  {
    ReadPrefixedSound(w, r);
    SliceOfSlice(h, i, r, 0, w);
    SliceOfSlice(h, i, r, w, w + |body|);
    assert r[..w] == Uint(w, |body|);
    assert r[w + |body|..] == rest;
  }

  lemma U8AtVal(h: Bytes, i: nat, n: nat)
    requires i < |h| && n < 0x100 && h[i..i + 1] == Uint(1, n)
    ensures h[i] == n
  {
    Pow256Values();
    UintValFits(1, n);
    assert UintVal(h[i..i + 1]) == 256 * UintVal([]) + h[i];
  }

  lemma FrontChain(h: Bytes, f: Front, rest: Bytes) returns (r1: Bytes, r2: Bytes, r3: Bytes)
    requires ReadFront(h) == Some((f, rest))
    ensures |h| >= 34 && r1 == h[34..] && ReadPrefixed(1, r1) == Some((f.sessionId, r2))
    ensures ReadPrefixed(2, r2) == Some((f.suites, r3)) && ReadPrefixed(1, r3) == Some((f.compression, rest))
  {
    hide Uint, UintVal;
    r1 := h[34..];
    r2 := ReadPrefixed(1, r1).value.1;
    r3 := ReadPrefixed(2, r2).value.1;
  }

  /** The four fields of the front, one after the other. */
  lemma FrontFieldsAt(h: Bytes, f: Front, rest: Bytes)
    requires ReadFront(h) == Some((f, rest))
    ensures var a := 35 + |f.sessionId|;
            var b := a + 2 + |f.suites|;
            var c := b + 1 + |f.compression|;
            && |f.sessionId| < 0x100 && |f.suites| < 0x1_0000 && |f.compression| < 0x100 && c <= |h|
            && h[34..35] == Uint(1, |f.sessionId|) && h[a..a + 2] == Uint(2, |f.suites|)
            && h[b..b + 1] == Uint(1, |f.compression|) && h[c..] == rest
  {
    hide ReadFront, ReadPrefixed, Uint, UintVal, Pow256;
    Pow256Values();
    var r1, r2, r3 := FrontChain(h, f, rest);
    FieldAt(h, 34, 1, r1, f.sessionId, r2);
    FieldAt(h, 35 + |f.sessionId|, 2, r2, f.suites, r3);
    FieldAt(h, 35 + |f.sessionId| + 2 + |f.suites|, 1, r3, f.compression, rest);
  }

  lemma FrontOffset(h: Bytes, f: Front, rest: Bytes)
    requires ReadFront(h) == Some((f, rest)) && |rest| >= 2
    ensures BlockOffset(h) == Some(|h| - |rest|) && h[|h| - |rest|..] == rest
  {
    hide ReadFront, Uint, U16At;
    FrontFieldsAt(h, f, rest);
    var a := 35 + |f.sessionId|;
    var b := a + 2 + |f.suites|;
    U8AtVal(h, 34, |f.sessionId|);
    U16AtVal(h, a, |f.suites|);
    U8AtVal(h, b, |f.compression|);
  }

  /** On every hello with sound framing, the scan finds the parser's extension types. */
  lemma ScanAgrees(data: Bytes, f: Front, exts: seq<RawExt>)
    requires |data| >= 4 && SplitHello(data) == Some((f, exts))
    ensures ScannedTypes(data[4..]) == Types(exts)
  {
    hide ReadFront, ReadPrefixed, ReadAll, BlockOffset, U16At, Types, Uint;
    var rest := ReadFront(data[4..]).value.1;
    if rest == [] {
      NoBlock(data[4..], f);
    } else {
      var block := Whole(2, rest).value;
      assert ReadPrefixed(2, rest).Some? && ReadPrefixed(2, rest).value == (block, []);
      BlockScanned(data[4..], f, rest, block, exts);
    }
  }

  lemma NoBlock(h: Bytes, f: Front)
    requires ReadFront(h) == Some((f, []))
    ensures ScannedTypes(h) == []
  {
    hide ReadFront, Uint, U16At;
    FrontFieldsAt(h, f, []);
    var a := 35 + |f.sessionId|;
    U8AtVal(h, 34, |f.sessionId|);
    U16AtVal(h, a, |f.suites|);
    U8AtVal(h, a + 2 + |f.suites|, |f.compression|);
  }

  lemma BlockScanned(h: Bytes, f: Front, rest: Bytes, block: Bytes, exts: seq<RawExt>)
    requires ReadFront(h) == Some((f, rest)) && ReadPrefixed(2, rest) == Some((block, []))
    requires ReadAll(ReadExt, block) == Some(exts)
    ensures ScannedTypes(h) == Types(exts)
  {
    hide ReadFront, ReadPrefixed, ReadAll, BlockOffset, U16At, Types, Uint;
    ReadPrefixedSound(2, rest);
    FrontOffset(h, f, rest);
    Pow256Values();
    var c := |h| - |rest|;
    FieldAt(h, c, 2, rest, block, []);
    ReadExtsSound(block);
    SliceOfSlice(h, c, rest, 2, 2 + |block|);
    assert h[c + 2..] == block;
    U16AtVal(h, c, |block|);
    ScanBlock(h, c + 2, exts);
  }

  /** The list scanned from the hello marshalled before its ECH extension is computed refers in order
      to the extensions of the hello that carries it. */
  lemma ScannedInOrder(data: Bytes, f: Front, pre: seq<RawExt>, ech: seq<RawExt>, post: seq<RawExt>, e: RawExt)
    requires |data| >= 4 && SplitHello(data) == Some((f, pre + ech + post))
    requires |ech| <= 1 && forall x | x in ech + [e] :: x.typ == ENCRYPTED_CLIENT_HELLO
    ensures IsSubseq(Listed(ScannedTypes(data[4..])), Types(pre + [e] + post))
  {
    hide SplitHello, ScannedTypes;
    ScanAgrees(data, f, pre + ech + post);
    ListedAround(pre, ech, post);
    ListedAround(pre, [e], post);
    assert e in ech + [e];
    ListedIsSubseq(Types(pre + [e] + post));
  }

  lemma ListedAround(pre: seq<RawExt>, ech: seq<RawExt>, post: seq<RawExt>)
    requires |ech| <= 1 && forall x | x in ech :: x.typ == ENCRYPTED_CLIENT_HELLO
    ensures Listed(Types(pre + ech + post)) == Listed(Types(pre)) + Listed(Types(post))
  {
    hide Compressible;
    TypesConcat(pre + ech, post);
    TypesConcat(pre, ech);
    ListedConcat(Types(pre) + Types(ech), Types(post));
    ListedConcat(Types(pre), Types(ech));
    NeverListed();
    assert ech != [] ==> Types(ech) == [ENCRYPTED_CLIENT_HELLO] && Types(ech)[1..] == [];
  }
}
