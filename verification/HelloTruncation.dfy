/** The bytes a pre-shared-key binder covers: in every hello that parses, the binder list is exactly
    the tail that marshalWithoutBinders cuts off. */
module HelloTruncation {
  import opened Wire
  import opened ClientHello
  import opened Ech

  function BinderList(bs: seq<Bytes>): (r: Bytes)
  {
    match WriteAll(WriteBinder, bs)
    case None => []
    case Some(b) => Uint(2, |b|) + b
  }

  predicate EndsWith(s: Bytes, t: Bytes) { |t| <= |s| && s[|s| - |t|..] == t }

  lemma EndsWithTrans(s: Bytes, t: Bytes, u: Bytes)
    requires EndsWith(s, t) && EndsWith(t, u)
    ensures EndsWith(s, u)
  {
  }

  lemma EndsWithConcat(a: Bytes, b: Bytes)
    ensures EndsWith(a + b, b)
  {
  }

  lemma {:induction false} BinderBytesLen(bs: seq<Bytes>)
    ensures WriteAll(WriteBinder, bs).Some? <==> forall b | b in bs :: |b| < 256
    ensures WriteAll(WriteBinder, bs).Some? ==> |WriteAll(WriteBinder, bs).value| + 2 == BindersLen(bs)
  {
    Pow256Values();
    if bs != [] {
      BinderBytesLen(bs[1..]);
      assert bs == [bs[0]] + bs[1..];
    }
  }

  lemma ReadBindersSound(s: Bytes)
    requires ReadAll(ReadLabel8, s).Some?
    ensures WriteAll(WriteBinder, ReadAll(ReadLabel8, s).value) == Some(s)
  {
    forall t: Bytes | ReadLabel8(t).Some?
      ensures var (b, rest) := ReadLabel8(t).value; WriteBinder(b).Some? && t == WriteBinder(b).value + rest
    {
      ReadPrefixedSound(1, t);
    }
    WriteAllOfRead(ReadLabel8, WriteBinder, s);
  }

  lemma ReadExtsSound(s: Bytes)
    requires ReadAll(ReadExt, s).Some?
    ensures WriteAll(WriteExt, ReadAll(ReadExt, s).value) == Some(s)
  {
    hide ReadExt, WriteExt;
    forall t: Bytes | ReadExt(t).Some?
      ensures var (e, rest) := ReadExt(t).value; WriteExt(e).Some? && t == WriteExt(e).value + rest
    {
      ExtSound(t);
    }
    WriteAllOfRead(ReadExt, WriteExt, s);
  }

  lemma ExtSound(t: Bytes)
    requires ReadExt(t).Some?
    ensures var (e, rest) := ReadExt(t).value; WriteExt(e).Some? && t == WriteExt(e).value + rest
  {
    hide Uint, UintVal, Pow256, ReadPrefixed;
    Pow256Values();
    UintValBound(t[..2]);
    UintOfVal(t[..2]);
    ReadPrefixedSound(2, t[2..]);
    assert t == t[..2] + t[2..];
  }

  lemma PskDataEnds(d: Bytes)
    requires PskOf(d).Some?
    ensures EndsWith(d, BinderList(PskOf(d).value.1)) && |BinderList(PskOf(d).value.1)| == BindersLen(PskOf(d).value.1)
  {
    var (i, r1) := ReadPrefixed(2, d).value;
    ReadPrefixedSound(2, d);
    ReadPrefixedSound(2, r1);
    var b := Whole(2, r1).value;
    ReadBindersSound(b);
    BinderBytesLen(PskOf(d).value.1);
    assert r1 == Uint(2, |b|) + b;
    assert d == (Uint(2, |i|) + i) + r1;
    EndsWithConcat(Uint(2, |i|) + i, r1);
  }

  lemma LastExtEnds(exts: seq<RawExt>)
    requires exts != [] && WriteAll(WriteExt, exts).Some?
    ensures EndsWith(WriteAll(WriteExt, exts).value, exts[|exts| - 1].data)
  {
    var init, e := exts[..|exts| - 1], exts[|exts| - 1];
    assert exts == init + [e];
    WriteAllAppend(WriteExt, init, [e]);
    WrittenExtEnds(e);
    var x := WriteAll(WriteExt, init).value;
    EndsWithConcat(x, WriteAll(WriteExt, [e]).value);
    EndsWithTrans(x + WriteAll(WriteExt, [e]).value, WriteAll(WriteExt, [e]).value, e.data);
  }

  lemma WrittenExtEnds(e: RawExt)
    requires WriteAll(WriteExt, [e]).Some?
    ensures EndsWith(WriteAll(WriteExt, [e]).value, e.data)
  {
    var head := Uint(2, e.typ) + Uint(2, |e.data|);
    assert WriteAll(WriteExt, [e]).value == head + e.data;
    EndsWithConcat(head, e.data);
  }

  /** The tail of a hello is its extension block. */
  lemma BlockEnds(data: Bytes, f: Front, rest: Bytes)
    requires |data| >= 4 && ReadFront(data[4..]) == Some((f, rest))
    ensures EndsWith(data, rest)
  {
    var s := data[4..];
    var r1 := s[34..];
    ReadPrefixedSound(1, r1);
    var r2 := ReadPrefixed(1, r1).value.1;
    ReadPrefixedSound(2, r2);
    var r3 := ReadPrefixed(2, r2).value.1;
    ReadPrefixedSound(1, r3);
    EndsWithTrans(r2, r3, rest);
    EndsWithTrans(r1, r2, rest);
    EndsWithTrans(data, r1, rest);
  }

  lemma PskIsLast(exts: seq<RawExt>)
    requires ExtsOk(exts) && FieldsIn(exts).pskBinders != []
    ensures exts != [] && exts[|exts| - 1].typ == PRE_SHARED_KEY
    ensures PskOf(exts[|exts| - 1].data).Some?
    ensures FieldsIn(exts).pskBinders == PskOf(exts[|exts| - 1].data).value.1
  {
    if PRE_SHARED_KEY !in Types(exts) {
      LookupAbsent(exts, PRE_SHARED_KEY);
    } else {
      var i :| 0 <= i < |exts| && Types(exts)[i] == PRE_SHARED_KEY;
      LookupAt(exts, i);
      assert ExtOk(exts[i], i == |exts| - 1);
    }
  }

  /** The pre_shared_key extension ends the extension block. */
  lemma BlockEndsWithBinders(block: Bytes)
    requires ParsedFields(block).Some? && ParsedFields(block).value.pskBinders != []
    ensures var bs := ParsedFields(block).value.pskBinders;
            EndsWith(block, BinderList(bs)) && |BinderList(bs)| == BindersLen(bs)
  {
    hide ExtOk;
    var exts := ReadAll(ReadExt, block).value;
    var bs := ParsedFields(block).value.pskBinders;
    PskIsLast(exts);
    ReadExtsSound(block);
    LastExtEnds(exts);
    var d := exts[|exts| - 1].data;
    PskDataEnds(d);
    EndsWithTrans(block, d, BinderList(bs));
  }

  /** In a parsed hello with binders the message is the part the binders cover followed by the binder
      list, byte for byte. */
  lemma TruncationExact(data: Bytes)
    requires Parsed(data).Some? && Parsed(data).value.fields.pskBinders != []
    ensures var bs := Parsed(data).value.fields.pskBinders;
            BindersLen(bs) <= |data| && data == WithoutBinders(data, bs) + BinderList(bs)
  {
    hide Parsed, ReadFront, ParsedFields, Uint, BinderList, EndsWith;
    var bs := Parsed(data).value.fields.pskBinders;
    var rest, block := BlockOf(data);
    BlockEndsWithBinders(block);
    EndsWithConcat(Uint(2, |block|), block);
    EndsWithTrans(rest, block, BinderList(bs));
    EndsWithTrans(data, rest, BinderList(bs));
    CutOff(data, BinderList(bs));
  }

  lemma CutOff(s: Bytes, t: Bytes)
    requires EndsWith(s, t)
    ensures |t| <= |s| && s == s[..|s| - |t|] + t
  {
  }

  /** The extension block of a parsed hello with binders, with its length field, at the end. */
  lemma BlockOf(data: Bytes) returns (rest: Bytes, block: Bytes)
    requires Parsed(data).Some? && Parsed(data).value.fields.pskBinders != []
    ensures EndsWith(data, rest) && rest == Uint(2, |block|) + block
    ensures ParsedFields(block) == Some(Parsed(data).value.fields)
  {
    hide ReadFront, ParsedFields, Uint, EndsWith;
    var f := ReadFront(data[4..]).value.0;
    rest := ReadFront(data[4..]).value.1;
    BlockEnds(data, f, rest);
    block := Whole(2, rest).value;
    ReadPrefixedSound(2, rest);
    assert rest == Uint(2, |block|) + block + [] == Uint(2, |block|) + block;
  }

  /** The binder list cannot be longer than the message. */
  lemma BindersFit(data: Bytes)
    requires Parsed(data).Some?
    ensures BindersLen(Parsed(data).value.fields.pskBinders) <= |data|
  {
    if Parsed(data).value.fields.pskBinders != [] { TruncationExact(data); }
  }
}
