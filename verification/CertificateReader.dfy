/** The cursor loops of unmarshalCertificate, against the functions that say what they read. */
module CertificateReader {
  import opened Wire
  import opened ClientHello
  import opened Certificate

  /** The loop over the timestamps of one extension. */
  method ReadScts(list: Bytes) returns (r: Option<seq<Bytes>>)
    ensures r == ReadAll(ReadSct, list)
  {
    hide ReadAll;
    var s, done := list, [];
    ReachedStart(ReadSct, list);
    while s != []
      invariant Reached(ReadSct, list, done, s)
      decreases |s|
    {
      ReachedNext(ReadSct, list, done, s);
      var next := ReadPrefixed(2, s);
      if next.None? || next.value.0 == [] { return None; }
      done := done + [next.value.0];
      s := next.value.1;
    }
    ReachedEnd(ReadSct, list, done);
    return Some(done);
  }

  lemma {:induction false} AbsorbSnoc(c: Cert, done: seq<RawExt>, e: RawExt)
    ensures AbsorbAll(c, done + [e]) == if AbsorbAll(c, done).Some? then Absorb(AbsorbAll(c, done).value, e) else None
    decreases |done|
  {
    hide Absorb;
    if done == [] {
      assert done + [e] == [e];
      AbsorbOne(c, e);
    } else {
      assert (done + [e])[1..] == done[1..] + [e];
      if Absorb(c, done[0]).Some? { AbsorbSnoc(Absorb(c, done[0]).value, done[1..], e); }
    }
  }

  lemma {:induction false} AbsorbFails(c: Cert, done: seq<RawExt>, more: seq<RawExt>)
    requires AbsorbAll(c, done).None?
    ensures AbsorbAll(c, done + more).None?
    decreases |done|
  {
    hide Absorb;
    if done != [] {
      assert (done + more)[1..] == done[1..] + more;
      if Absorb(c, done[0]).Some? { AbsorbFails(Absorb(c, done[0]).value, done[1..], more); }
    }
  }

  /** The switch on one leaf extension. */
  method AbsorbExtension(c: Cert, e: RawExt) returns (r: Option<Cert>)
    ensures r == Absorb(c, e)
  {
    var extData := e.data;
    if e.typ == STATUS_REQUEST {
      if extData == [] || extData[0] != STATUS_TYPE_OCSP { return None; }
      var staple := ReadPrefixed(3, extData[1..]);
      if staple.None? || staple.value.0 == [] || staple.value.1 != [] { return None; }
      return Some(c.(staple := Some(staple.value.0)));
    } else if e.typ == SCT {
      var list := ReadPrefixed(2, extData);
      if list.None? || list.value.0 == [] { return None; }
      var more := ReadScts(list.value.0);
      if more.None? || list.value.1 != [] { return None; }
      return Some(c.(scts := Some((if c.scts.Some? then c.scts.value else []) + more.value)));
    } else {
      return Some(c);
    }
  }

  function EntryExts(c: Cert, leaf: bool, eb: Bytes): (r: Option<Cert>)
  {
    var exts :- ReadAll(ReadExt, eb);
    if leaf then AbsorbAll(c, exts) else Some(c)
  }

  /** The loop over one entry's extensions; only the leaf's are looked into. */
  method ReadEntryExts(c: Cert, leaf: bool, eb: Bytes) returns (r: Option<Cert>)
    ensures r == EntryExts(c, leaf, eb)
  {
    hide ReadAll, AbsorbAll, Absorb;
    var s := eb;
    ghost var done: seq<RawExt> := [];
    var c' := c;
    ReachedStart(ReadExt, eb);
    AbsorbNone(c);
    while s != []
      invariant Reached(ReadExt, eb, done, s)
      invariant if leaf then AbsorbAll(c, done) == Some(c') else c' == c
      decreases |s|
    {
      ReachedNext(ReadExt, eb, done, s);
      var next := ReadExt(s);
      if next.None? { return None; }
      var e := next.value.0;
      if leaf {
        AbsorbSnoc(c, done, e);
        var taken := AbsorbExtension(c', e);
        if taken.None? {
          ghost var rest := ReadAll(ReadExt, next.value.1);
          if rest.Some? { AbsorbFails(c, done + [e], rest.value); }
          return None;
        }
        c' := taken.value;
      }
      done := done + [e];
      s := next.value.1;
    }
    ReachedEnd(ReadExt, eb, done);
    return Some(c');
  }

  lemma AbsorbNone(c: Cert)
    ensures AbsorbAll(c, []) == Some(c)
  {
  }

  /** The certificate so far, after the entries in done. */
  lemma FromEntriesSnoc(done: seq<Entry>, e: Entry)
    requires FromEntries(done).Some?
    ensures FromEntries(done + [e]) ==
      var c := FromEntries(done).value;
      var c' := c.(chain := c.chain + [e.cert]);
      if done == [] then AbsorbAll(c', e.exts) else Some(c')
  {
    hide Absorb;
    assert Certs(done + [e]) == Certs(done) + [e.cert];
    if done == [] {
      assert (done + [e])[0] == e && [] + [e.cert] == [e.cert];
    } else {
      assert (done + [e])[0] == done[0];
      AbsorbChain(Cert(Certs(done), None, None), done[0].exts, Certs(done) + [e.cert]);
      AbsorbKeepsChain(Cert(Certs(done), None, None), done[0].exts);
    }
  }

  lemma {:induction false} AbsorbChain(c: Cert, exts: seq<RawExt>, chain: seq<Bytes>)
    ensures AbsorbAll(c.(chain := chain), exts) ==
            if AbsorbAll(c, exts).Some? then Some(AbsorbAll(c, exts).value.(chain := chain)) else None
    decreases |exts|
  {
    if exts != [] && Absorb(c, exts[0]).Some? {
      AbsorbChain(Absorb(c, exts[0]).value, exts[1..], chain);
    }
  }

  lemma FromEntriesFails(done: seq<Entry>, more: seq<Entry>)
    requires FromEntries(done).None?
    ensures FromEntries(done + more).None?
  {
    assert (done + more)[0] == done[0];
    AbsorbChain(Cert(Certs(done), None, None), done[0].exts, Certs(done + more));
  }

  /** unmarshalCertificate. */
  method UnmarshalCertificate(s: Bytes) returns (r: Option<(Cert, Bytes)>)
    ensures r == ReadCert(s)
  {
    hide ReadAll, AbsorbAll, ReadExt, FromEntries, EntryExts;
    var list := ReadPrefixed(3, s);
    if list.None? { return None; }
    var certList := list.value.0;
    ghost var all, done: seq<Entry> := certList, [];
    var c := Cert([], None, None);
    ReachedStart(ReadEntry, all);
    NoEntries();
    while certList != []
      invariant Reached(ReadEntry, all, done, certList)
      invariant FromEntries(done) == Some(c) && |c.chain| == |done|
      decreases |certList|
    {
      ReachedNext(ReadEntry, all, done, certList);
      var cert := ReadPrefixed(3, certList);
      if cert.None? { return None; }
      var extensions := ReadPrefixed(2, cert.value.1);
      if extensions.None? { return None; }
      c := c.(chain := c.chain + [cert.value.0]);
      var taken := ReadEntryExts(c, |c.chain| == 1, extensions.value.0);
      EntryRound(all, done, certList, c, extensions.value.0, extensions.value.1);
      if taken.None? { return None; }
      done := done + [ReadEntry(certList).value.0];
      c := taken.value;
      certList := extensions.value.1;
    }
    ReachedEnd(ReadEntry, all, done);
    return Some((c, list.value.1));
  }

  lemma NoEntries()
    ensures FromEntries([]) == Some(Cert([], None, None))
  {
  }

  /** One entry: it fails as a whole when its extensions do, and a failure there fails the message. */
  lemma EntryRound(all: Bytes, done: seq<Entry>, s: Bytes, c: Cert, eb: Bytes, rest: Bytes)
    requires FromEntries(done).Some? && |FromEntries(done).value.chain| == |done|
    requires ReadPrefixed(3, s).Some? && ReadPrefixed(2, ReadPrefixed(3, s).value.1) == Some((eb, rest))
    requires c == FromEntries(done).value.(chain := FromEntries(done).value.chain + [ReadPrefixed(3, s).value.0])
    requires if ReadEntry(s).None? then ReadAll(ReadEntry, all) == None
             else Reached(ReadEntry, all, done + [ReadEntry(s).value.0], ReadEntry(s).value.1)
    ensures EntryExts(c, |c.chain| == 1, eb).None? ==>
            ReadAll(ReadEntry, all).None? || FromEntries(ReadAll(ReadEntry, all).value).None?
    ensures EntryExts(c, |c.chain| == 1, eb).Some? ==>
            ReadEntry(s).Some? && ReadEntry(s).value.1 == rest
            && FromEntries(done + [ReadEntry(s).value.0]) == EntryExts(c, |c.chain| == 1, eb)
            && |EntryExts(c, |c.chain| == 1, eb).value.chain| == |done| + 1
  {
    hide ReadAll, AbsorbAll, Absorb, FromEntries;
    if ReadEntry(s).Some? {
      var e := ReadEntry(s).value.0;
      FromEntriesSnoc(done, e);
      if done == [] && AbsorbAll(c, e.exts).Some? { AbsorbKeepsChain(c, e.exts); }
      if EntryExts(c, |c.chain| == 1, eb).None? && ReadAll(ReadEntry, rest).Some? {
        FromEntriesFails(done + [e], ReadAll(ReadEntry, rest).value);
      }
    }
  }
}
