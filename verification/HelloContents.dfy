/** What the ClientHello parser demands, said by a writer: an extension is accepted exactly when it is the
    encoding of some content of its type, and a hello exactly when all its extensions are. */
module HelloContents {
  import opened Wire
  import opened ClientHello
  import opened HelloTruncation

  // ---- Lists of items ----

  /** enc writes exactly what item reads. */
  ghost predicate Inverse<T(!new)>(item: Bytes -> Option<(T, Bytes)>, enc: T -> Option<Bytes>)
  {
    && (forall s: Bytes | item(s).Some? ::
          enc(item(s).value.0).Some? && s == enc(item(s).value.0).value + item(s).value.1)
    && (forall x: T | enc(x).Some? :: ReadsBack(item, enc(x).value, x))
  }

  lemma ReadsAllExactly<T(!new)>(item: Bytes -> Option<(T, Bytes)>, enc: T -> Option<Bytes>, s: Bytes, xs: seq<T>)
    requires Inverse(item, enc)
    ensures ReadAll(item, s) == Some(xs) <==> WriteAll(enc, xs) == Some(s)
  {
    if ReadAll(item, s).Some? { WriteAllOfRead(item, enc, s); }
    if WriteAll(enc, xs).Some? { ReadAllWritten(item, enc, x => true, xs); }
  }

  lemma WholeExactly(w: nat, d: Bytes, body: Bytes)
    ensures Whole(w, d) == Some(body) <==> Prefixed(w, body) == Some(d)
  {
    hide Uint, UintVal, Pow256;
    if Whole(w, d) == Some(body) {
      ReadPrefixedSound(w, d);
      assert Uint(w, |body|) + body + [] == Uint(w, |body|) + body;
    }
    if Prefixed(w, body) == Some(d) {
      ReadPrefixedWritten(w, body, []);
      assert d == Uint(w, |body|) + body + [];
    }
  }

  /** A length-prefixed list fills the data. */
  function ListData<T>(w: nat, enc: T -> Option<Bytes>, xs: seq<T>): (d: Option<Bytes>)
  {
    var body :- WriteAll(enc, xs);
    Prefixed(w, body)
  }

  lemma ListExactly<T(!new)>(w: nat, item: Bytes -> Option<(T, Bytes)>, enc: T -> Option<Bytes>, d: Bytes, xs: seq<T>)
    requires Inverse(item, enc)
    ensures (Whole(w, d).Some? && ReadAll(item, Whole(w, d).value) == Some(xs)) <==> ListData(w, enc, xs) == Some(d)
    ensures ListData(w, enc, xs) == Some(d) ==> (Whole(w, d).value == [] <==> xs == [])
  {
    hide ReadAll, WriteAll, Prefixed, Whole, Inverse;
    if Whole(w, d).Some? {
      var body := Whole(w, d).value;
      WholeExactly(w, d, body);
      ReadsAllExactly(item, enc, body, xs);
      if ReadAll(item, body) == Some(xs) { ReadAllNonEmpty(item, body); }
    }
    if WriteAll(enc, xs).Some? { WholeExactly(w, d, WriteAll(enc, xs).value); }
  }

  // ---- The items ----

  function EncU16(n: nat): (r: Option<Bytes>) { if n < 0x1_0000 then Some(Uint(2, n)) else None }

  function EncLabel(b: Bytes): (r: Option<Bytes>)
  {
    if 0 < |b| < 0x100 then Some(Uint(1, |b|) + b) else None
  }

  function EncShare(e: RawExt): (r: Option<Bytes>)
  {
    if e.typ < 0x1_0000 && 0 < |e.data| < 0x1_0000 then Some(Uint(2, e.typ) + (Uint(2, |e.data|) + e.data)) else None
  }

  function EncName(n: (nat, Bytes)): (r: Option<Bytes>)
  {
    if n.0 < 0x100 && 0 < |n.1| < 0x1_0000 then Some(Uint(1, n.0) + (Uint(2, |n.1|) + n.1)) else None
  }

  function EncIdentity(id: PskIdentity): (r: Option<Bytes>)
  {
    if 0 < |id.ticket| < 0x1_0000 && id.age < 0x1_0000_0000
    then Some(Uint(2, |id.ticket|) + id.ticket + Uint(4, id.age)) else None
  }

  lemma U16Inverse()
    ensures Inverse(ReadU16, EncU16)
  {
    hide Uint, UintVal, Pow256;
    Pow256Values();
    forall s: Bytes | ReadU16(s).Some?
      ensures EncU16(ReadU16(s).value.0).Some? && s == EncU16(ReadU16(s).value.0).value + ReadU16(s).value.1
    {
      UintValBound(s[..2]);
      UintOfVal(s[..2]);
    }
    forall n: nat | EncU16(n).Some? ensures ReadsBack(ReadU16, EncU16(n).value, n) {
      forall rest: Bytes ensures ReadU16(EncU16(n).value + rest) == Some((n, rest)) { ReadUintWritten(2, n, rest); }
    }
  }

  lemma LabelInverse()
    ensures Inverse(ReadLabel8, EncLabel)
  {
    hide Uint, UintVal, Pow256;
    Pow256Values();
    forall s: Bytes | ReadLabel8(s).Some?
      ensures var (b, rest) := ReadLabel8(s).value; EncLabel(b).Some? && s == EncLabel(b).value + rest
    {
      ReadPrefixedSound(1, s);
    }
    forall b: Bytes | EncLabel(b).Some? ensures ReadsBack(ReadLabel8, EncLabel(b).value, b) {
      forall rest: Bytes ensures ReadLabel8(EncLabel(b).value + rest) == Some((b, rest)) {
        ReadPrefixedWritten(1, b, rest);
      }
    }
  }

  lemma ShareInverse()
    ensures Inverse(ReadShare, EncShare)
  {
    hide Uint, UintVal, Pow256, ReadExt;
    forall s: Bytes | ReadShare(s).Some?
      ensures EncShare(ReadShare(s).value.0).Some? && s == EncShare(ReadShare(s).value.0).value + ReadShare(s).value.1
    {
      ExtSound(s);
      Pow256Values();
    }
    forall e: RawExt | EncShare(e).Some? ensures ReadsBack(ReadShare, EncShare(e).value, e) {
      Pow256Values();
      ExtReadsBack(e);
      forall rest: Bytes ensures ReadShare(EncShare(e).value + rest) == Some((e, rest)) {}
    }
  }

  lemma NameInverse()
    ensures Inverse(ReadName, EncName)
  {
    hide Uint, UintVal, Pow256;
    Pow256Values();
    forall s: Bytes | ReadName(s).Some?
      ensures EncName(ReadName(s).value.0).Some? && s == EncName(ReadName(s).value.0).value + ReadName(s).value.1
    {
      UintValBound(s[..1]);
      UintOfVal(s[..1]);
      ReadPrefixedSound(2, s[1..]);
      assert s == s[..1] + s[1..];
    }
    forall n: (nat, Bytes) | EncName(n).Some? ensures ReadsBack(ReadName, EncName(n).value, n) {
      forall rest: Bytes ensures ReadName(EncName(n).value + rest) == Some((n, rest)) {
        var tail := Uint(2, |n.1|) + n.1 + rest;
        assert EncName(n).value + rest == Uint(1, n.0) + tail;
        ReadUintWritten(1, n.0, tail);
        ReadPrefixedWritten(2, n.1, rest);
      }
    }
  }

  lemma IdentityInverse()
    ensures Inverse(ReadIdentity, EncIdentity)
  {
    hide Uint, UintVal, Pow256;
    Pow256Values();
    forall s: Bytes | ReadIdentity(s).Some?
      ensures EncIdentity(ReadIdentity(s).value.0).Some?
      ensures s == EncIdentity(ReadIdentity(s).value.0).value + ReadIdentity(s).value.1
    {
      ReadPrefixedSound(2, s);
      var r1 := ReadPrefixed(2, s).value.1;
      UintValBound(r1[..4]);
      UintOfVal(r1[..4]);
      assert r1 == r1[..4] + r1[4..];
    }
    forall id: PskIdentity | EncIdentity(id).Some? ensures ReadsBack(ReadIdentity, EncIdentity(id).value, id) {
      forall rest: Bytes ensures ReadIdentity(EncIdentity(id).value + rest) == Some((id, rest)) {
        assert EncIdentity(id).value + rest == Uint(2, |id.ticket|) + id.ticket + (Uint(4, id.age) + rest);
        ReadPrefixedWritten(2, id.ticket, Uint(4, id.age) + rest);
        ReadUintWritten(4, id.age, rest);
      }
    }
  }

  // ---- The contents ----

  /** What an extension says, by kind of content. The types of Numbers, Octets and Flag are those with that
      form; Opaque is every type whose data is not looked into. */
  datatype Content =
    | Names(names: seq<(nat, Bytes)>)
    | Status(typ: Byte, responders: Bytes, extensions: Bytes)
    | Numbers(t: nat, ns: seq<nat>)
    | Octets(t: nat, b: Bytes)
    | Flag(t: nat)
    | Protocols(ps: seq<Bytes>)
    | Versions(ns: seq<nat>)
    | CookieValue(b: Bytes)
    | Shares(ks: seq<RawExt>)
    | Psk(ids: seq<PskIdentity>, binders: seq<Bytes>)
    | Opaque(t: nat, d: Bytes)

  /** At most one host name, and none with a trailing dot. */
  predicate NamesOk(names: seq<(nat, Bytes)>)
  {
    && names != [] && (forall i, j | 0 <= i < j < |names| :: names[i].0 != 0 || names[j].0 != 0)
    && forall i | 0 <= i < |names| && names[i].0 == 0 && names[i].1 != [] :: names[i].1[|names[i].1| - 1] != '.' as int
  }

  /** The types with data of a form of their own. */
  const CHECKED: set<nat> := {0, 5, 10, 11, 13, 16, 18, 23, 41, 42, 43, 44, 45, 50, 51, 65281}

  predicate Wellformed(x: Content)
  {
    match x
    case Names(names) => NamesOk(names)
    case Status(_, _, _) => true
    case Numbers(t, ns) => t in {10, 13, 50} && ns != []
    case Octets(t, b) => t in {11, 45, 65281} && (t == 11 ==> b != [])
    case Flag(t) => t in {18, 23, 42}
    case Protocols(ps) => ps != []
    case Versions(ns) => ns != []
    case CookieValue(b) => b != []
    case Shares(_) => true
    case Psk(ids, binders) => ids != [] && binders != []
    case Opaque(t, _) => t !in CHECKED
  }

  function TypeOf(x: Content): (t: nat)
  {
    match x
    case Names(_) => 0
    case Status(_, _, _) => 5
    case Numbers(t, _) => t
    case Octets(t, _) => t
    case Flag(t) => t
    case Protocols(_) => 16
    case Versions(_) => 43
    case CookieValue(_) => 44
    case Shares(_) => 51
    case Psk(_, _) => 41
    case Opaque(t, _) => t
  }

  /** The bytes marshalMsg writes for it; None when a length does not fit. */
  function DataOf(x: Content): (d: Option<Bytes>)
  {
    match x
    case Names(names) => ListData(2, EncName, names)
    case Status(typ, responders, extensions) =>
      var a :- Prefixed(2, responders);
      var b :- Prefixed(2, extensions);
      Some([typ] + a + b)
    case Numbers(_, ns) => ListData(2, EncU16, ns)
    case Octets(_, b) => Prefixed(1, b)
    case Flag(_) => Some([])
    case Protocols(ps) => ListData(2, EncLabel, ps)
    case Versions(ns) => ListData(1, EncU16, ns)
    case CookieValue(b) => Prefixed(2, b)
    case Shares(ks) => ListData(2, EncShare, ks)
    case Psk(ids, binders) =>
      var a :- ListData(2, EncIdentity, ids);
      var b :- ListData(2, EncLabel, binders);
      Some(a + b)
    case Opaque(_, d) => Some(d)
  }

  /** e is the encoding of x. */
  predicate Encodes(e: RawExt, x: Content) { Wellformed(x) && TypeOf(x) == e.typ && DataOf(x) == Some(e.data) }

  // ---- Type by type ----

  lemma NumbersExactly(w: nat, d: Bytes, ns: seq<nat>)
    ensures U16List(w, d) == Some(ns) <==> ns != [] && ListData(w, EncU16, ns) == Some(d)
  {
    hide ReadAll, Whole, ListData, Inverse;
    U16Inverse();
    ListExactly(w, ReadU16, EncU16, d, ns);
    if U16List(w, d).Some? { ReadAllNonEmpty(ReadU16, Whole(w, d).value); }
  }

  lemma ListOkExactly<T(!new)>(item: Bytes -> Option<(T, Bytes)>, enc: T -> Option<Bytes>, d: Bytes, allowEmpty: bool)
    requires Inverse(item, enc)
    ensures ListOk(item, d, allowEmpty) <==>
            exists xs: seq<T> :: ListData(2, enc, xs) == Some(d) && (allowEmpty || xs != [])
  {
    hide ReadAll, Whole, ListData, Inverse;
    if ListOk(item, d, allowEmpty) {
      var body := Whole(2, d).value;
      var xs := ReadAll(item, body).value;
      ListExactly(2, item, enc, d, xs);
      ReadAllNonEmpty(item, body);
    }
    forall xs: seq<T> | ListData(2, enc, xs) == Some(d) && (allowEmpty || xs != [])
      ensures ListOk(item, d, allowEmpty)
    {
      ListExactly(2, item, enc, d, xs);
    }
  }

  lemma StatusExactly(d: Bytes)
    ensures StatusRequestOk(d) <==> exists x: Content :: x.Status? && DataOf(x) == Some(d)
  {
    hide Uint, UintVal, Pow256;
    if StatusRequestOk(d) {
      var (a, rest) := ReadPrefixed(2, d[1..]).value;
      ReadPrefixedSound(2, d[1..]);
      var b := Whole(2, rest).value;
      WholeExactly(2, rest, b);
      assert d == [d[0]] + d[1..];
      assert d == [d[0]] + (Uint(2, |a|) + a) + rest;
      assert DataOf(Status(d[0], a, b)) == Some(d);
    }
    forall x: Content | x.Status? && DataOf(x) == Some(d) ensures StatusRequestOk(d) {
      var a, rest := x.responders, Prefixed(2, x.extensions).value;
      assert d[1..] == Uint(2, |a|) + a + rest;
      ReadPrefixedWritten(2, a, rest);
      WholeExactly(2, rest, x.extensions);
    }
  }

  lemma PskExactly(d: Bytes, ids: seq<PskIdentity>, binders: seq<Bytes>)
    ensures PskOf(d) == Some((ids, binders)) <==> ids != [] && binders != [] && DataOf(Psk(ids, binders)) == Some(d)
  {
    hide Uint, UintVal, Pow256, ReadAll, WriteAll, Inverse;
    IdentityInverse();
    LabelInverse();
    if PskOf(d) == Some((ids, binders)) {
      var (i, r1) := ReadPrefixed(2, d).value;
      ReadPrefixedSound(2, d);
      ReadsAllExactly(ReadIdentity, EncIdentity, i, ids);
      ListExactly(2, ReadLabel8, EncLabel, r1, binders);
    }
    if DataOf(Psk(ids, binders)) == Some(d) {
      var i, b := WriteAll(EncIdentity, ids).value, ListData(2, EncLabel, binders).value;
      ReadPrefixedWritten(2, i, b);
      ReadsAllExactly(ReadIdentity, EncIdentity, i, ids);
      ListExactly(2, ReadLabel8, EncLabel, b, binders);
    }
  }

  /** The host name of a list with at most one. */
  function HostOf(names: seq<(nat, Bytes)>): (h: Bytes)
  {
    if names == [] then [] else if names[0].0 == 0 then names[0].1 else HostOf(names[1..])
  }

  predicate OneHost(names: seq<(nat, Bytes)>)
  {
    forall i, j | 0 <= i < j < |names| :: names[i].0 != 0 || names[j].0 != 0
  }

  predicate NoHost(names: seq<(nat, Bytes)>) { forall i | 0 <= i < |names| :: names[i].0 != 0 }

  lemma OneHostStep(names: seq<(nat, Bytes)>)
    requires names != []
    ensures OneHost(names) <==> OneHost(names[1..]) && (names[0].0 == 0 ==> NoHost(names[1..]))
    ensures NoHost(names) <==> names[0].0 != 0 && NoHost(names[1..])
  {
    var rest := names[1..];
    if OneHost(names) {
      forall i, j | 0 <= i < j < |rest| ensures rest[i].0 != 0 || rest[j].0 != 0 {
        assert names[i + 1].0 != 0 || names[j + 1].0 != 0;
      }
      forall i | 0 <= i < |rest| && names[0].0 == 0 ensures rest[i].0 != 0 { assert names[i + 1].0 != 0; }
    }
    if OneHost(rest) && (names[0].0 == 0 ==> NoHost(rest)) {
      forall i, j | 0 <= i < j < |names| ensures names[i].0 != 0 || names[j].0 != 0 {
        assert names[j] == rest[j - 1];
        if i > 0 { assert names[i] == rest[i - 1]; }
      }
    }
    if NoHost(rest) && names[0].0 != 0 {
      forall i | 0 <= i < |names| ensures names[i].0 != 0 { if i > 0 { assert names[i] == rest[i - 1]; } }
    }
    if NoHost(names) { forall i | 0 <= i < |rest| ensures rest[i].0 != 0 { assert names[i + 1].0 != 0; } }
  }

  ghost predicate HasHost(names: seq<(nat, Bytes)>, h: Bytes) { exists i | 0 <= i < |names| :: names[i] == (0, h) }

  lemma {:induction false} HostNamesExactly(names: seq<(nat, Bytes)>)
    ensures HostNames(names) == [] <==> NoHost(names)
    ensures |HostNames(names)| <= 1 <==> OneHost(names)
    ensures |HostNames(names)| == 1 ==> HostNames(names)[0] == HostOf(names)
    ensures HostNames(names) == [] ==> HostOf(names) == []
    ensures HostNames(names) != [] ==> HasHost(names, HostOf(names))
  {
    hide OneHost, NoHost;
    if names == [] {
      NoNames();
    } else {
      OneHostStep(names);
      HostNamesExactly(names[1..]);
      if names[0].0 == 0 {
        assert names[0] == (0, HostOf(names));
      } else if HostNames(names[1..]) != [] {
        var i :| 0 <= i < |names[1..]| && names[1..][i] == (0, HostOf(names[1..]));
        assert names[i + 1] == (0, HostOf(names));
      }
    }
  }

  lemma NoNames()
    ensures OneHost([]) && NoHost([])
  {
  }

  lemma NamesOkHosts(names: seq<(nat, Bytes)>)
    requires names != []
    ensures NamesOk(names) <==>
            |HostNames(names)| <= 1 && (HostOf(names) == [] || HostOf(names)[|HostOf(names)| - 1] != '.' as int)
  {
    HostNamesExactly(names);
    assert NamesOk(names) ==> OneHost(names);
    if HostNames(names) != [] {
      var i :| 0 <= i < |names| && names[i] == (0, HostOf(names));
      if OneHost(names) {
        forall j | 0 <= j < |names| && names[j].0 == 0 ensures j == i {}
      }
    }
  }

  lemma NamesExactly(d: Bytes, names: seq<(nat, Bytes)>)
    ensures ListData(2, EncName, names) == Some(d) && names != [] ==>
            ServerNameOf(d) == if NamesOk(names) then Some(HostOf(names)) else None
    ensures ServerNameOf(d).Some? ==> exists ns :: ns != [] && NamesOk(ns) && ListData(2, EncName, ns) == Some(d)
  {
    hide ReadAll, Whole, ListData, Inverse, NamesOk, HostNames, HostOf;
    NameInverse();
    ListExactly(2, ReadName, EncName, d, names);
    if names != [] {
      NamesOkHosts(names);
      HostNamesExactly(names);
    }
    if ServerNameOf(d).Some? {
      var body := Whole(2, d).value;
      var ns := ReadAll(ReadName, body).value;
      ListExactly(2, ReadName, EncName, d, ns);
      ReadAllNonEmpty(ReadName, body);
      NamesOkHosts(ns);
      HostNamesExactly(ns);
    }
  }

  // ---- One extension ----

  /** An extension whose data is the encoding of some content; the pre-shared key only in the last place. */
  ghost predicate HasContent(e: RawExt, last: bool)
  {
    exists x: Content :: Encodes(e, x) && (x.Psk? ==> last)
  }

  lemma ListContents(e: RawExt, last: bool)
    requires e.typ == 16 || e.typ == 51
    ensures ExtOk(e, last) <==> HasContent(e, last)
  {
    hide ListOk, ListData, Inverse, NamesOk;
    if e.typ == 16 {
      LabelInverse();
      ListOkExactly(ReadLabel8, EncLabel, e.data, false);
      if ExtOk(e, last) {
        var ps :| ListData(2, EncLabel, ps) == Some(e.data) && ps != [];
        assert Encodes(e, Protocols(ps));
      }
    } else {
      ShareInverse();
      ListOkExactly(ReadShare, EncShare, e.data, true);
      if ExtOk(e, last) {
        var ks :| ListData(2, EncShare, ks) == Some(e.data);
        assert Encodes(e, Shares(ks));
      }
    }
  }

  lemma NumberContents(e: RawExt, last: bool)
    requires e.typ in {10, 13, 50, 43}
    ensures ExtOk(e, last) <==> HasContent(e, last)
  {
    hide U16List, ListData, NamesOk;
    var w := if e.typ == 43 then 1 else 2;
    if U16List(w, e.data).Some? {
      var ns := U16List(w, e.data).value;
      NumbersExactly(w, e.data, ns);
      assert Encodes(e, if e.typ == 43 then Versions(ns) else Numbers(e.typ, ns));
    }
    forall x: Content | Encodes(e, x) ensures U16List(w, e.data).Some? {
      NumbersExactly(w, e.data, x.ns);
    }
  }

  lemma OctetContents(e: RawExt, last: bool)
    requires e.typ in {11, 45, 65281, 44, 18, 23, 42}
    ensures ExtOk(e, last) <==> HasContent(e, last)
  {
    hide Whole, Prefixed, NamesOk, ListData;
    var w := if e.typ == 44 then 2 else 1;
    if Whole(w, e.data).Some? {
      var b := Whole(w, e.data).value;
      WholeExactly(w, e.data, b);
      if e.typ in {11, 45, 65281} && (e.typ == 11 ==> b != []) { assert Encodes(e, Octets(e.typ, b)); }
      if e.typ == 44 && b != [] { assert Encodes(e, CookieValue(b)); }
    }
    if e.typ in {18, 23, 42} && e.data == [] { assert Encodes(e, Flag(e.typ)); }
    forall x: Content | Encodes(e, x) && (x.Octets? || x.CookieValue?) ensures Whole(w, e.data) == Some(x.b) {
      WholeExactly(w, e.data, x.b);
    }
  }

  lemma OtherContents(e: RawExt, last: bool)
    requires e.typ in {0, 5, 41} || e.typ !in CHECKED
    ensures ExtOk(e, last) <==> HasContent(e, last)
  {
    hide ServerNameOf, StatusRequestOk, PskOf, DataOf, NamesOk;
    if e.typ == 0 {
      NamesContents(e, last);
    } else if e.typ == 5 {
      StatusExactly(e.data);
      if ExtOk(e, last) {
        var x: Content :| x.Status? && DataOf(x) == Some(e.data);
        assert Encodes(e, x);
      }
    } else if e.typ == 41 {
      if PskOf(e.data).Some? {
        var (ids, binders) := PskOf(e.data).value;
        PskExactly(e.data, ids, binders);
        assert last ==> Encodes(e, Psk(ids, binders));
      }
      forall x: Content | Encodes(e, x) ensures PskOf(e.data).Some? { PskExactly(e.data, x.ids, x.binders); }
    } else {
      OpaqueData(e);
      assert Encodes(e, Opaque(e.typ, e.data));
    }
  }

  lemma OpaqueData(e: RawExt)
    ensures DataOf(Opaque(e.typ, e.data)) == Some(e.data)
  {
  }

  lemma NamesContents(e: RawExt, last: bool)
    requires e.typ == 0
    ensures ExtOk(e, last) <==> HasContent(e, last)
  {
    hide ServerNameOf, ListData, NamesOk;
    NamesExactly(e.data, []);
    if ServerNameOf(e.data).Some? {
      var ns :| ns != [] && NamesOk(ns) && ListData(2, EncName, ns) == Some(e.data);
      assert Encodes(e, Names(ns));
    }
    forall x: Content | Encodes(e, x) ensures ServerNameOf(e.data).Some? {
      NamesNotEmpty(x.names);
      NamesExactly(e.data, x.names);
    }
  }

  lemma NamesNotEmpty(names: seq<(nat, Bytes)>)
    requires NamesOk(names)
    ensures names != []
  {
  }

  /** The parser accepts an extension exactly when it is the encoding of a content of its type. */
  lemma ExtOkExactly(e: RawExt, last: bool)
    ensures ExtOk(e, last) <==> HasContent(e, last)
  {
    hide ExtOk, HasContent;
    if e.typ == 16 || e.typ == 51 {
      ListContents(e, last);
    } else if e.typ in {10, 13, 50, 43} {
      NumberContents(e, last);
    } else if e.typ in {11, 45, 65281, 44, 18, 23, 42} {
      OctetContents(e, last);
    } else {
      OtherContents(e, last);
    }
  }

  // ---- The whole hello ----

  /** Distinct extensions, each the encoding of a content, with the pre-shared key last. */
  ghost predicate HaveContents(exts: seq<RawExt>)
  {
    && (forall i, j | 0 <= i < j < |exts| :: exts[i].typ != exts[j].typ)
    && forall i | 0 <= i < |exts| :: HasContent(exts[i], i == |exts| - 1)
  }

  lemma ExtsOkExactly(exts: seq<RawExt>)
    ensures ExtsOk(exts) <==> HaveContents(exts)
  {
    hide ExtOk, HasContent;
    forall i | 0 <= i < |exts| ensures ExtOk(exts[i], i == |exts| - 1) == HasContent(exts[i], i == |exts| - 1) {
      ExtOkExactly(exts[i], i == |exts| - 1);
    }
    var ts := Types(exts);
    assert Distinct(ts) <==> forall i, j | 0 <= i < j < |exts| :: exts[i].typ != exts[j].typ by {
      if Distinct(ts) {
        forall i, j | 0 <= i < j < |exts| ensures exts[i].typ != exts[j].typ { assert ts[i] != ts[j]; }
      }
    }
  }

  lemma {:induction false} EvenSuites(s: Bytes)
    ensures ReadAll(ReadU16, s).Some? <==> |s| % 2 == 0
    decreases |s|
  {
    hide UintVal;
    if |s| >= 2 { EvenSuites(s[2..]); }
  }

  /** Everything of a hello after its four-byte header. A hello without extensions may leave the block out. */
  function BodyOf(f: Front, exts: seq<RawExt>, block: bool): (r: Option<Bytes>)
  {
    var front :- WriteFront(f);
    if !block then (if exts == [] then Some(front) else None) else
    var extBytes :- WriteAll(WriteExt, exts);
    var b :- Prefixed(2, extBytes);
    Some(front + b)
  }

  lemma FrontSound(s: Bytes)
    requires ReadFront(s).Some?
    ensures WriteFront(ReadFront(s).value.0).Some? && s == WriteFront(ReadFront(s).value.0).value + ReadFront(s).value.1
  {
    hide ReadPrefixed, Uint, UintVal, Pow256;
    var (f, rest) := ReadFront(s).value;
    var r1 := s[34..];
    ReadPrefixedSound(1, r1);
    var r2 := ReadPrefixed(1, r1).value.1;
    ReadPrefixedSound(2, r2);
    var r3 := ReadPrefixed(2, r2).value.1;
    ReadPrefixedSound(1, r3);
    assert s == s[..34] + r1;
    Chain(s[..34], Uint(1, |f.sessionId|) + f.sessionId, Uint(2, |f.suites|) + f.suites,
          Uint(1, |f.compression|) + f.compression, rest);
  }

  lemma Chain(a: Bytes, b: Bytes, c: Bytes, d: Bytes, e: Bytes)
    ensures a + (b + (c + (d + e))) == a + b + c + d + e
  {
  }

  /** The bytes are a hello of these parts. */
  ghost predicate Composed(data: Bytes, f: Front, exts: seq<RawExt>, block: bool)
  {
    |data| >= 4 && BodyOf(f, exts, block) == Some(data[4..])
  }

  lemma ComposedSplits(data: Bytes, f: Front, exts: seq<RawExt>, block: bool)
    requires Composed(data, f, exts, block)
    ensures SplitHello(data) == Some((f, exts))
  {
    hide ReadFront, ReadAll, WriteAll, WriteFront, Whole;
    var front := WriteFront(f).value;
    if !block {
      FrontReadsBack(f, []);
      assert front + [] == front;
    } else {
      var extBytes := WriteAll(WriteExt, exts).value;
      var b := Prefixed(2, extBytes).value;
      FrontReadsBack(f, b);
      WholeExactly(2, b, extBytes);
      ExtsReadBack(exts);
    }
  }

  lemma SplitComposes(data: Bytes)
    requires SplitHello(data).Some?
    ensures var (f, exts) := SplitHello(data).value; exists block :: Composed(data, f, exts, block)
  {
    hide ReadFront, ReadAll, WriteAll, WriteFront, Whole;
    var (f, exts) := SplitHello(data).value;
    var rest := ReadFront(data[4..]).value.1;
    FrontSound(data[4..]);
    if rest == [] {
      assert WriteFront(f).value + [] == WriteFront(f).value;
      assert Composed(data, f, exts, false);
    } else {
      var extBytes := Whole(2, rest).value;
      WholeExactly(2, rest, extBytes);
      ReadExtsSound(extBytes);
      assert Composed(data, f, exts, true);
    }
  }

  lemma ParsedIsSplit(data: Bytes)
    ensures Parsed(data).Some? <==>
            SplitHello(data).Some? && |SplitHello(data).value.0.suites| % 2 == 0 && ExtsOk(SplitHello(data).value.1)
    ensures Parsed(data).Some? ==>
            Parsed(data).value.fields == FieldsIn(SplitHello(data).value.1) && Parsed(data).value.original == data
  {
    hide ReadFront, ReadAll, Whole, ExtOk, FieldsIn;
    if |data| >= 4 && ReadFront(data[4..]).Some? { EvenSuites(ReadFront(data[4..]).value.0.suites); }
    NoExtsOk();
  }

  lemma NoExtsOk()
    ensures ExtsOk([])
  {
  }

  /** For any bytes: the parser accepts exactly the hellos composed of a front with whole cipher suites and
      distinct extensions that each encode a content, the pre-shared key last. */
  lemma ParsesExactly(data: Bytes)
    ensures Parsed(data).Some? <==>
            exists f, exts, block :: Composed(data, f, exts, block) && |f.suites| % 2 == 0 && HaveContents(exts)
  {
    hide Parsed, SplitHello, Composed, ExtsOk, HaveContents;
    ParsedIsSplit(data);
    if Parsed(data).Some? {
      var (f, exts) := SplitHello(data).value;
      SplitComposes(data);
      ExtsOkExactly(exts);
    }
    forall f, exts, block | Composed(data, f, exts, block) && |f.suites| % 2 == 0 && HaveContents(exts)
      ensures Parsed(data).Some?
    {
      ComposedSplits(data, f, exts, block);
      ExtsOkExactly(exts);
    }
  }

  /** What the fields then hold: the content of the extension that carries each, or nothing. */
  lemma FieldsExactly(exts: seq<RawExt>, i: nat, x: Content)
    requires HaveContents(exts) && i < |exts| && Encodes(exts[i], x)
    ensures FieldsIn(exts).extensions == Types(exts)
    ensures x.Names? ==> FieldsIn(exts).serverName == HostOf(x.names)
    ensures x.Versions? ==> FieldsIn(exts).supportedVersions == x.ns
    ensures x.Psk? ==> FieldsIn(exts).pskIdentities == x.ids && FieldsIn(exts).pskBinders == x.binders
    ensures exts[i].typ == 65037 ==> FieldsIn(exts).encryptedClientHello == exts[i].data
  {
    hide ServerNameOf, U16List, PskOf, ListData, ExtOk, NamesOk, HostOf;
    ExtsOkExactly(exts);
    LookupAt(exts, i);
    match x
    case Names(names) =>
      NamesNotEmpty(names);
      NamesExactly(exts[i].data, names);
    case Versions(ns) => NumbersExactly(1, exts[i].data, ns);
    case Psk(ids, binders) => PskExactly(exts[i].data, ids, binders);
    case _ =>
  }

  lemma AbsentFields(exts: seq<RawExt>)
    ensures 0 !in Types(exts) ==> FieldsIn(exts).serverName == []
    ensures 43 !in Types(exts) ==> FieldsIn(exts).supportedVersions == []
    ensures 41 !in Types(exts) ==> FieldsIn(exts).pskIdentities == [] && FieldsIn(exts).pskBinders == []
    ensures 65037 !in Types(exts) ==> FieldsIn(exts).encryptedClientHello == []
  {
    hide ServerNameOf, U16List, PskOf;
    if 0 !in Types(exts) { LookupAbsent(exts, 0); }
    if 43 !in Types(exts) { LookupAbsent(exts, 43); }
    if 41 !in Types(exts) { LookupAbsent(exts, 41); }
    if 65037 !in Types(exts) { LookupAbsent(exts, 65037); }
  }
}
