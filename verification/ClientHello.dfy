/** The ClientHello message: its raw extension list, the server's parser (clientHelloMsg.unmarshal)
    and the form in which a hello is written. Fields that no proof here reads (key shares, curves,
    signature algorithms, ...) are checked by the parser as in the source but not stored. */
module ClientHello {
  import opened Wire

  const SERVER_NAME := 0
  const STATUS_REQUEST := 5
  const SUPPORTED_CURVES := 10
  const SUPPORTED_POINTS := 11
  const SIGNATURE_ALGORITHMS := 13
  const ALPN := 16
  const SCT := 18
  const EXTENDED_MASTER_SECRET := 23
  const COMPRESS_CERTIFICATE := 27
  const SESSION_TICKET := 35
  const PRE_SHARED_KEY := 41
  const EARLY_DATA := 42
  const SUPPORTED_VERSIONS := 43
  const COOKIE := 44
  const PSK_MODES := 45
  const SIGNATURE_ALGORITHMS_CERT := 50
  const KEY_SHARE := 51
  const QUIC_TRANSPORT_PARAMETERS := 57
  const APPLICATION_SETTINGS := 17513
  const APPLICATION_SETTINGS_NEW := 17613
  const ECH_OUTER_EXTENSIONS := 0xfd00
  const ENCRYPTED_CLIENT_HELLO := 0xfe0d
  const RENEGOTIATION_INFO := 0xff01


  datatype RawExt = RawExt(typ: nat, data: Bytes)
  datatype PskIdentity = PskIdentity(ticket: Bytes, age: nat)

  /** The fields of a hello that come from its extensions. */
  datatype Fields = Fields(extensions: seq<nat>, serverName: Bytes, supportedVersions: seq<nat>,
                           pskIdentities: seq<PskIdentity>, pskBinders: seq<Bytes>, encryptedClientHello: Bytes)

  datatype Hello = Hello(original: Bytes, version: nat, random: Bytes, sessionId: Bytes, cipherSuites: seq<nat>,
                         compressionMethods: Bytes, fields: Fields)

  // ---- One raw extension ----

  function ReadExt(s: Bytes): (r: Option<(RawExt, Bytes)>)
  {
    var (t, r1) :- ReadUint(2, s);
    var (d, r2) :- ReadPrefixed(2, r1);
    Some((RawExt(t, d), r2))
  }

  function WriteExt(e: RawExt): (r: Option<Bytes>)
  {
    var t :- WriteU16(e.typ);
    var d :- Prefixed(2, e.data);
    Some(t + d)
  }

  lemma ExtReadsBack(e: RawExt)
    requires WriteExt(e).Some?
    ensures ReadsBack(ReadExt, WriteExt(e).value, e)
  {
    Pow256Values();
    forall rest: Bytes ensures ReadExt(WriteExt(e).value + rest) == Some((e, rest)) {
      var d := Prefixed(2, e.data).value;
      assert WriteExt(e).value + rest == Uint(2, e.typ) + (d + rest);
      ReadUintWritten(2, e.typ, d + rest);
      ReadPrefixedWritten(2, e.data, rest);
    }
  }

  lemma ExtsReadBack(exts: seq<RawExt>)
    requires WriteAll(WriteExt, exts).Some?
    ensures ReadAll(ReadExt, WriteAll(WriteExt, exts).value) == Some(exts)
  {
    forall e | e in exts && WriteExt(e).Some? ensures ReadsBack(ReadExt, WriteExt(e).value, e) {
      ExtReadsBack(e);
    }
    ReadAllWritten(ReadExt, WriteExt, (e: RawExt) => true, exts);
  }

  function Types(exts: seq<RawExt>): (ts: seq<nat>)
    ensures |ts| == |exts| && forall i | 0 <= i < |ts| :: ts[i] == exts[i].typ
  {
    seq(|exts|, i requires 0 <= i < |exts| => exts[i].typ)
  }

  ghost predicate Distinct(ts: seq<nat>)
  {
    forall i, j | 0 <= i < j < |ts| :: ts[i] != ts[j]
  }

  /** The data of the first extension of type t. */
  function Lookup(exts: seq<RawExt>, t: nat): (r: Option<Bytes>)
  {
    if exts == [] then None
    else if exts[0].typ == t then Some(exts[0].data)
    else Lookup(exts[1..], t)
  }

  lemma {:induction false} LookupAt(exts: seq<RawExt>, i: nat)
    requires i < |exts| && Distinct(Types(exts))
    ensures Lookup(exts, exts[i].typ) == Some(exts[i].data)
  {
    if i != 0 {
      assert Types(exts)[0] != Types(exts)[i];
      assert Types(exts[1..]) == Types(exts)[1..];
      LookupAt(exts[1..], i - 1);
    }
  }

  lemma {:induction false} LookupAbsent(exts: seq<RawExt>, t: nat)
    requires t !in Types(exts)
    ensures Lookup(exts, t) == None
  {
    if exts != [] {
      assert Types(exts)[0] == exts[0].typ;
      assert Types(exts[1..]) == Types(exts)[1..];
      LookupAbsent(exts[1..], t);
    }
  }

  lemma {:induction false} LookupAppend(xs: seq<RawExt>, ys: seq<RawExt>, t: nat)
    ensures Lookup(xs + ys, t) == if Lookup(xs, t).Some? then Lookup(xs, t) else Lookup(ys, t)
  {
    if xs == [] {
      assert xs + ys == ys;
    } else {
      assert (xs + ys)[1..] == xs[1..] + ys;
      LookupAppend(xs[1..], ys, t);
    }
  }

  // ---- What unmarshal demands of each extension ----

  /** A length-prefixed value that fills the whole of d. */
  function Whole(w: nat, d: Bytes): (r: Option<Bytes>)
  {
    var (body, rest) :- ReadPrefixed(w, d);
    if rest == [] then Some(body) else None
  }

  function U16List(w: nat, d: Bytes): (r: Option<seq<nat>>)
  {
    var body :- Whole(w, d);
    if body == [] then None else ReadAll(ReadU16, body)
  }

  function ReadName(s: Bytes): (r: Option<((nat, Bytes), Bytes)>)
  {
    var (t, r1) :- ReadUint(1, s);
    var (n, r2) :- ReadPrefixed(2, r1);
    if n == [] then None else Some(((t, n), r2))
  }

  function HostNames(names: seq<(nat, Bytes)>): (r: seq<Bytes>)
  {
    if names == [] then [] else (if names[0].0 == 0 then [names[0].1] else []) + HostNames(names[1..])
  }

  /** server_name: at most one host name, without a trailing dot; empty when there is none. */
  function ServerNameOf(d: Bytes): (r: Option<Bytes>)
  {
    var body :- Whole(2, d);
    if body == [] then None else
    var names :- ReadAll(ReadName, body);
    var hosts := HostNames(names);
    if hosts == [] then Some([])
    else if |hosts| > 1 || (hosts[0] != [] && hosts[0][|hosts[0]| - 1] == '.' as int) then None
    else Some(hosts[0])
  }

  function ReadLabel8(s: Bytes): (r: Option<(Bytes, Bytes)>)
  {
    var (b, rest) :- ReadPrefixed(1, s);
    if b == [] then None else Some((b, rest))
  }

  function ReadShare(s: Bytes): (r: Option<(RawExt, Bytes)>)
  {
    var (ks, rest) :- ReadExt(s);
    if ks.data == [] then None else Some((ks, rest))
  }

  function ReadIdentity(s: Bytes): (r: Option<(PskIdentity, Bytes)>)
  {
    var (ticket, r1) :- ReadPrefixed(2, s);
    var (age, r2) :- ReadUint(4, r1);
    if ticket == [] then None else Some((PskIdentity(ticket, age), r2))
  }

  function PskOf(d: Bytes): (r: Option<(seq<PskIdentity>, seq<Bytes>)>)
  {
    var (idBytes, r1) :- ReadPrefixed(2, d);
    var ids :- ReadAll(ReadIdentity, idBytes);
    var binderBytes :- Whole(2, r1);
    var binders :- ReadAll(ReadLabel8, binderBytes);
    if ids == [] || binders == [] then None else Some((ids, binders))
  }

  predicate StatusRequestOk(d: Bytes)
  {
    |d| >= 1 &&
    match ReadPrefixed(2, d[1..])
    case None => false
    case Some((_, rest)) => Whole(2, rest).Some?
  }

  predicate ListOk<T>(item: Bytes -> Option<(T, Bytes)>, d: Bytes, allowEmpty: bool)
  {
    match Whole(2, d)
    case None => false
    case Some(body) => (allowEmpty || body != []) && ReadAll(item, body).Some?
  }

  /** The switch of unmarshal: what the data of one extension must look like; last says that no
      extension follows it. */
  predicate ExtOk(e: RawExt, last: bool)
  {
    var t, d := e.typ, e.data;
    if t == SERVER_NAME then ServerNameOf(d).Some?
    else if t == STATUS_REQUEST then StatusRequestOk(d)
    else if t == SUPPORTED_CURVES || t == SIGNATURE_ALGORITHMS || t == SIGNATURE_ALGORITHMS_CERT
    then U16List(2, d).Some?
    else if t == SUPPORTED_POINTS then Whole(1, d).Some? && Whole(1, d).value != []
    else if t == RENEGOTIATION_INFO || t == PSK_MODES then Whole(1, d).Some?
    else if t == EXTENDED_MASTER_SECRET || t == SCT || t == EARLY_DATA then d == []
    else if t == ALPN then ListOk(ReadLabel8, d, false)
    else if t == SUPPORTED_VERSIONS then U16List(1, d).Some?
    else if t == COOKIE then Whole(2, d).Some? && Whole(2, d).value != []
    else if t == KEY_SHARE then ListOk(ReadShare, d, true)
    else if t == PRE_SHARED_KEY then last && PskOf(d).Some?
    else true  // session_ticket, quic_transport_parameters, encrypted_client_hello: any data; others are ignored
  }

  ghost predicate ExtsOk(exts: seq<RawExt>)
  {
    Distinct(Types(exts)) && forall i | 0 <= i < |exts| :: ExtOk(exts[i], i == |exts| - 1)
  }

  // ---- The message before its extensions ----

  datatype Front = Front(versionAndRandom: Bytes, sessionId: Bytes, suites: Bytes, compression: Bytes)

  function ReadFront(s: Bytes): (r: Option<(Front, Bytes)>)
  {
    var (vr, r1) :- ReadBytes(34, s);
    var (sid, r2) :- ReadPrefixed(1, r1);
    var (suites, r3) :- ReadPrefixed(2, r2);
    var (comp, r4) :- ReadPrefixed(1, r3);
    Some((Front(vr, sid, suites, comp), r4))
  }

  function WriteFront(f: Front): (r: Option<Bytes>)
  {
    if |f.versionAndRandom| != 34 then None else
    var sid :- Prefixed(1, f.sessionId);
    var suites :- Prefixed(2, f.suites);
    var comp :- Prefixed(1, f.compression);
    Some(f.versionAndRandom + sid + suites + comp)
  }

  lemma FrontReadsBack(f: Front, rest: Bytes)
    requires WriteFront(f).Some?
    ensures ReadFront(WriteFront(f).value + rest) == Some((f, rest))
  {
    hide ReadPrefixed, Uint, Pow256;
    var vr := f.versionAndRandom;
    var sid, suites, comp := Prefixed(1, f.sessionId).value, Prefixed(2, f.suites).value,
      Prefixed(1, f.compression).value;
    var s := WriteFront(f).value + rest;
    var s1, s2, s3 := sid + suites + comp + rest, suites + comp + rest, comp + rest;
    assert s == vr + s1;
    assert s[..34] == vr && s[34..] == s1;
    assert s1 == Uint(1, |f.sessionId|) + f.sessionId + s2;
    ReadPrefixedWritten(1, f.sessionId, s2);
    assert s2 == Uint(2, |f.suites|) + f.suites + s3;
    ReadPrefixedWritten(2, f.suites, s3);
    ReadPrefixedWritten(1, f.compression, rest);
  }

  /** A complete hello: message type, 24-bit length, front and extension block. */
  function WriteHello(f: Front, exts: seq<RawExt>): (r: Option<Bytes>)
  {
    var front :- WriteFront(f);
    var extBytes :- WriteAll(WriteExt, exts);
    var block :- Prefixed(2, extBytes);
    var body :- Prefixed(3, front + block);
    Some([1] + body)
  }

  lemma HelloBytes(f: Front, exts: seq<RawExt>)
    requires WriteHello(f, exts).Some?
    ensures var h := WriteHello(f, exts).value;
            |h| > 4 && h[4..] == WriteFront(f).value + Prefixed(2, WriteAll(WriteExt, exts).value).value
  {
    var front, block := WriteFront(f).value, Prefixed(2, WriteAll(WriteExt, exts).value).value;
    assert [1] + (Uint(3, |front + block|) + (front + block)) == ([1] + Uint(3, |front + block|)) + (front + block);
  }

  // ---- unmarshal ----

  /** Each field is read off the extension that carries it. */
  function FieldsIn(exts: seq<RawExt>): (f: Fields)
  {
    Fields(Types(exts),
           match Lookup(exts, SERVER_NAME)
           case Some(d) => (if ServerNameOf(d).Some? then ServerNameOf(d).value else [])
           case None => [],
           match Lookup(exts, SUPPORTED_VERSIONS)
           case Some(d) => (if U16List(1, d).Some? then U16List(1, d).value else [])
           case None => [],
           match Lookup(exts, PRE_SHARED_KEY)
           case Some(d) => (if PskOf(d).Some? then PskOf(d).value.0 else [])
           case None => [],
           match Lookup(exts, PRE_SHARED_KEY)
           case Some(d) => (if PskOf(d).Some? then PskOf(d).value.1 else [])
           case None => [],
           match Lookup(exts, ENCRYPTED_CLIENT_HELLO) case Some(d) => d case None => [])
  }

  /** The assignment one round of the parsing loop makes. */
  function Assign(f: Fields, e: RawExt): (r: Fields)
    requires ExtOk(e, true)
  {
    var g := f.(extensions := f.extensions + [e.typ]);
    if e.typ == SERVER_NAME then g.(serverName := ServerNameOf(e.data).value)
    else if e.typ == SUPPORTED_VERSIONS then g.(supportedVersions := U16List(1, e.data).value)
    else if e.typ == PRE_SHARED_KEY then g.(pskIdentities := PskOf(e.data).value.0, pskBinders := PskOf(e.data).value.1)
    else if e.typ == ENCRYPTED_CLIENT_HELLO then g.(encryptedClientHello := e.data)
    else g
  }

  lemma AssignIsLookup(done: seq<RawExt>, e: RawExt)
    requires e.typ !in Types(done) && ExtOk(e, true)
    ensures FieldsIn(done + [e]) == Assign(FieldsIn(done), e)
  {
    assert Types(done + [e]) == Types(done) + [e.typ];
    LookupAbsent(done, e.typ);
    LookupAppend(done, [e], SERVER_NAME);
    LookupAppend(done, [e], SUPPORTED_VERSIONS);
    LookupAppend(done, [e], PRE_SHARED_KEY);
    LookupAppend(done, [e], ENCRYPTED_CLIENT_HELLO);
  }

  /** The extension list of a received hello, if its framing is sound: None for a malformed message,
      the empty list for a message that ends after the compression methods. */
  function SplitHello(data: Bytes): (r: Option<(Front, seq<RawExt>)>)
    ensures r.Some? ==> |r.value.0.versionAndRandom| == 34
  {
    if |data| < 4 then None else
    var (f, rest) :- ReadFront(data[4..]);
    if rest == [] then Some((f, [])) else
    var extBytes :- Whole(2, rest);
    var exts :- ReadAll(ReadExt, extBytes);
    Some((f, exts))
  }

  lemma {:induction false} ReadAllNonEmpty<T>(item: Bytes -> Option<(T, Bytes)>, s: Bytes)
    requires ReadAll(item, s).Some?
    ensures ReadAll(item, s).value == [] <==> s == []
  {
  }

  ghost function ParsedFields(block: Bytes): (r: Option<Fields>)
  {
    var exts :- ReadAll(ReadExt, block);
    if ExtsOk(exts) then Some(FieldsIn(exts)) else None
  }

  /** What unmarshal answers. */
  ghost function Parsed(data: Bytes): (r: Option<Hello>)
  {
    if |data| < 4 then None else
    var (f, rest) :- ReadFront(data[4..]);
    var suites :- ReadAll(ReadU16, f.suites);
    var fields :- if rest == [] then Some(FieldsIn([])) else BlockFields(rest);
    Some(Hello(data, UintVal(f.versionAndRandom[..2]), f.versionAndRandom[2..], f.sessionId, suites, f.compression,
               fields))
  }

  ghost function BlockFields(rest: Bytes): (r: Option<Fields>)
  {
    var block :- Whole(2, rest);
    ParsedFields(block)
  }

  /** What the loop knows of the extensions it has passed. */
  ghost predicate Passed(done: seq<RawExt>, atEnd: bool)
  {
    Distinct(Types(done)) && forall i | 0 <= i < |done| :: ExtOk(done[i], atEnd && i == |done| - 1)
  }

  lemma CursorStep(block: Bytes, done: seq<RawExt>, s: Bytes)
    requires Reached(ReadExt, block, done, s) && s != [] && ReadExt(s).Some?
    ensures Reached(ReadExt, block, done + [ReadExt(s).value.0], ReadExt(s).value.1)
  {
    ReachedNext(ReadExt, block, done, s);
  }

  lemma PassedStep(done: seq<RawExt>, e: RawExt, atEnd: bool)
    requires Passed(done, false) && e.typ !in Types(done) && ExtOk(e, atEnd)
    ensures Passed(done + [e], atEnd)
  {
    assert Types(done + [e]) == Types(done) + [e.typ];
  }

  lemma CursorStart(block: Bytes)
    ensures Reached(ReadExt, block, [], block) && Passed([], block == [])
    ensures FieldsIn([]) == Fields([], [], [], [], [], [])
  {
    assert forall xs: seq<RawExt> :: [] + xs == xs;
  }

  lemma CursorStuck(block: Bytes, done: seq<RawExt>, s: Bytes)
    requires Reached(ReadExt, block, done, s) && s != [] && ReadExt(s).None?
    ensures ParsedFields(block) == None
  {
  }

  lemma CursorEnd(block: Bytes, done: seq<RawExt>)
    requires Reached(ReadExt, block, done, []) && Passed(done, true)
    ensures ParsedFields(block) == Some(FieldsIn(done))
  {
    hide ExtOk, FieldsIn;
    assert done + [] == done;
  }

  lemma ExtShrinks(s: Bytes)
    requires ReadExt(s).Some?
    ensures |ReadExt(s).value.1| < |s|
  {
  }

  lemma OkAnywhere(e: RawExt, last: bool)
    requires ExtOk(e, last)
    ensures ExtOk(e, true)
  {
  }

  lemma TypesNext(done: seq<RawExt>, e: RawExt)
    ensures forall t: nat :: t in Types(done + [e]) <==> t in Types(done) || t == e.typ
  {
    assert Types(done + [e]) == Types(done) + [e.typ];
  }

  lemma BadExtension(block: Bytes, done: seq<RawExt>, s: Bytes)
    requires Reached(ReadExt, block, done, s) && s != [] && ReadExt(s).Some?
    requires var (e, tail) := ReadExt(s).value; e.typ in Types(done) || !ExtOk(e, tail == [])
    ensures ParsedFields(block) == None
  {
    var (e, tail) := ReadExt(s).value;
    CursorStep(block, done, s);
    var whole := ReadAll(ReadExt, block);
    if whole.Some? {
      ReadAllNonEmpty(ReadExt, tail);
      assert whole.value[|done|] == e;
      assert whole.value[..|done|] == done;
      if e.typ in Types(done) { Duplicate(whole.value, done, e); }
    }
  }

  lemma Duplicate(whole: seq<RawExt>, done: seq<RawExt>, e: RawExt)
    requires |done| < |whole| && whole[..|done|] == done && whole[|done|] == e
    requires e.typ in Types(done)
    ensures !Distinct(Types(whole))
  {
    var i :| 0 <= i < |done| && Types(done)[i] == e.typ;
    assert Types(whole)[i] == Types(whole)[|done|];
  }

  /** The extension loop of unmarshal: one pass over the block, each field assigned when its
      extension is met. */
  method ParseExtensions(block: Bytes) returns (fields: Option<Fields>)
    ensures fields == ParsedFields(block)
  {
    hide ExtOk, Assign, FieldsIn, ReadAll, Passed, ParsedFields, Reached;
    var s := block;
    var seen: set<nat> := {};
    var f := Fields([], [], [], [], [], []);
    ghost var done: seq<RawExt> := [];
    CursorStart(block);
    while s != []
      invariant Reached(ReadExt, block, done, s) && Passed(done, s == [])
      invariant f == FieldsIn(done)
      invariant forall t: nat :: t in seen <==> t in Types(done)
      decreases |s|
    {
      var next := ReadExt(s);
      if next.None? {
        CursorStuck(block, done, s);
        return None;
      }
      var (e, tail) := next.value;
      ExtShrinks(s);
      if e.typ in seen || !ExtOk(e, tail == []) {
        BadExtension(block, done, s);
        return None;
      }
      CursorStep(block, done, s);
      PassedStep(done, e, tail == []);
      OkAnywhere(e, tail == []);
      AssignIsLookup(done, e);
      TypesNext(done, e);
      f, seen, s := Assign(f, e), seen + {e.typ}, tail;
      done := done + [e];
    }
    CursorEnd(block, done);
    return Some(f);
  }

  method Unmarshal(data: Bytes) returns (m: Option<Hello>)
    ensures m == Parsed(data)
  {
    if |data| < 4 { return None; }
    var front := ReadFront(data[4..]);
    if front.None? { return None; }
    var (f, rest) := front.value;
    var suites := ReadAll(ReadU16, f.suites);
    if suites.None? { return None; }
    var fields := Some(FieldsIn([]));
    if rest != [] {
      var block := Whole(2, rest);
      if block.None? { return None; }
      fields := ParseExtensions(block.value);
      if fields.None? { return None; }
    }
    return Some(Hello(data, UintVal(f.versionAndRandom[..2]), f.versionAndRandom[2..], f.sessionId, suites.value,
                      f.compression, fields.value));
  }

  /** Bytes of the message up to the binder list (clientHelloMsg.marshalWithoutBinders on a received hello). */
  function WithoutBinders(original: Bytes, binders: seq<Bytes>): (r: Bytes)
    requires BindersLen(binders) <= |original|
  {
    original[..|original| - BindersLen(binders)]
  }

  function BindersLen(binders: seq<Bytes>): (n: nat)
    ensures n >= 2
  {
    if binders == [] then 2 else 1 + |binders[0]| + BindersLen(binders[1..])
  }
}
