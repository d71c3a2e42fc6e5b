/** Application data from the writer's loop to the reader's: what Write cuts up, Read hands out. */
module Transfer {
  import opened Wire
  import opened Record
  import opened RecordRun
  import opened Writer
  import opened Reader
  import opened ReaderRuns

  /** The bytes of a wire as the reader's network delivers them. */
  function Frames(wire: seq<Bytes>): (r: seq<Arrival>)
    ensures |r| == |wire| && forall i | 0 <= i < |r| :: r[i] == Frame(wire[i])
  {
    seq(|wire|, i requires 0 <= i < |wire| => Frame(wire[i]))
  }

  predicate Negotiated(vers: nat) { vers == TLS10 || vers == TLS11 || vers == TLS12 || vers == TLS13 }

  /** A reader after its handshake, with nothing pending. */
  ghost predicate Idle(conn: InConn)
    reads conn, conn.half
  {
    && conn.Valid() && conn.err.None? && conn.input == [] && conn.hand == [] && !conn.quic && conn.handshakeComplete
    && conn.haveVers && conn.half.version == conn.vers && Negotiated(conn.vers) && conn.half.shape != Plain
  }

  lemma VersionField(vers: nat)
    requires Negotiated(vers)
    ensures UintVal(RecordVersion(vers)) == if vers == TLS13 then TLS12 else vers
  {
    hide Uint, UintVal;
    Pow256Values();
    UintValFits(2, if vers == TLS13 then TLS12 else vers);
  }

  /** A written record passes the reader's header checks. */
  lemma HeaderPasses(k: Keys, h: Half, typ: Byte, payload: Bytes, rand: Bytes)
    requires k.Lawful() && Negotiated(h.version) && Writable(k, h, typ, RecordVersion(h.version), payload, rand)
    ensures var record := Encrypt(k, h, typ, RecordVersion(h.version), payload, rand).1;
            && |record| >= HEADER && WellFormed(Frame(record)) && HeaderOk(h.version, true, true, record[..HEADER])
  {
    hide Uint, UintVal, Encrypt, RecordSize, Keys.Lawful, Header, RecordVersion;
    BlockBounds(k);
    var vers := RecordVersion(h.version);
    var record := Encrypt(k, h, typ, vers, payload, rand).1;
    var t, body := EncryptedBody(k, h, typ, vers, payload, rand);
    PassesPeerCheck(k, h, |payload|);
    HeaderFields(t, vers, body);
    Pow256Values();
    UintValFits(2, |body|);
    VersionField(h.version);
  }

  lemma HeaderFields(typ: Byte, vers: Bytes, body: Bytes)
    requires |vers| == 2
    ensures var record := Header(typ, vers, |body|) + body;
            && |record| == HEADER + |body| && record[..HEADER][1..3] == vers
            && record[..HEADER][3..5] == Uint(2, |body|)
  {
    hide Uint;
  }

  /** The first record of a run is ready for a reader in step with the sender. */
  lemma FirstReady(s: End, conn: InConn, parts: seq<Bytes>, evs: seq<Event>, wire: seq<Bytes>)
    requires Idle(conn) && conn.half.k == s.k && Synced(s.h, conn.half.State()) && s.k.Lawful() && parts != []
    requires WrittenParts(APPLICATION_DATA, parts, evs) && Versioned(evs, conn.vers)
    requires SendAll(s, evs).Some? && SendAll(s, evs).value.1 == Records(wire) && conn.arrivals == Frames(wire)
    ensures |wire| == |parts| && |wire[0]| >= HEADER && Send(s, evs[0]).1 == Rec(wire[0])
    ensures Opens(conn.State(), parts[0], 23) && 0 < |parts[0]| <= 16384
    ensures var o := Decrypt(conn.half.k, conn.half.State(), wire[0]);
            o.1 == Ok(parts[0], APPLICATION_DATA) && Synced(Send(s, evs[0]).0.h, o.0) && Send(s, evs[0]).0.k == s.k
    ensures SendAll(Send(s, evs[0]).0, evs[1..]).Some?
    ensures SendAll(Send(s, evs[0]).0, evs[1..]).value.1 == Records(wire[1..])
  {
    hide Encrypt, Decrypt, Keys.Lawful, RecordVersion, HeaderOk;
    BlockBounds(s.k);
    var ev := evs[0];
    RunLength(s, evs);
    HeaderPasses(s.k, s.h, ev.typ, ev.payload, ev.rand);
    OneRecord(s.k, s.h, conn.half.State(), ev.typ, ev.vers, ev.payload, ev.rand);
    var (_, items) := SendAll(Send(s, ev).0, evs[1..]).value;
    assert [Send(s, ev).1] + items == Records(wire);
    assert items == Records(wire)[1..] == Records(wire[1..]);
    assert Records(wire)[0] == Rec(wire[0]);
  }

  /** The records of a run are frames of the length their headers claim. */
  lemma {:induction false} FramesFit(s: End, evs: seq<Event>, wire: seq<Bytes>)
    requires Negotiated(s.h.version) && Versioned(evs, s.h.version)
    requires SendAll(s, evs).Some? && SendAll(s, evs).value.1 == Records(wire)
    ensures forall a | a in Frames(wire) :: WellFormed(a)
    decreases |evs|
  {
    hide Encrypt, Keys.Lawful, RecordVersion, HeaderOk, Writable;
    if evs != [] {
      var ev := evs[0];
      BlockBounds(s.k);
      HeaderPasses(s.k, s.h, ev.typ, ev.payload, ev.rand);
      KeepsShape(s.k, s.h, ev.typ, ev.vers, ev.payload, ev.rand);
      var (_, items) := SendAll(Send(s, ev).0, evs[1..]).value;
      assert [Send(s, ev).1] + items == Records(wire);
      assert items == Records(wire)[1..] == Records(wire[1..]);
      assert Records(wire)[0] == Rec(wire[0]);
      FramesFit(Send(s, ev).0, evs[1..], wire[1..]);
      forall a | a in Frames(wire) ensures WellFormed(a) {
        assert a == Frame(wire[0]) || a in Frames(wire[1..]);
      }
    } else {
      assert |Records(wire)| == 0;
    }
  }

  lemma {:induction false} RunLength(s: End, evs: seq<Event>)
    requires SendAll(s, evs).Some?
    ensures |SendAll(s, evs).value.1| == |evs|
    decreases |evs|
  {
    hide Send, Possible, Keys.Lawful;
    if evs != [] {
      BlockBounds(s.k);
      var (e1, item) := Send(s, evs[0]);
      RunLength(e1, evs[1..]);
    }
  }

  /** One Read with a large enough buffer: readRecord puts one part into input, which is then handed out. */
  method ReadOne(conn: InConn, ghost s: End, ghost parts: seq<Bytes>, ghost evs: seq<Event>, ghost wire: seq<Bytes>)
    returns (part: Bytes)
    requires Idle(conn) && conn.half.k == s.k && Synced(s.h, conn.half.State()) && s.k.Lawful() && parts != []
    requires WrittenParts(APPLICATION_DATA, parts, evs) && Versioned(evs, conn.vers)
    requires SendAll(s, evs).Some? && SendAll(s, evs).value.1 == Records(wire) && conn.arrivals == Frames(wire)
    modifies conn, conn.half
    ensures part == parts[0] && Idle(conn) && conn.vers == old(conn.vers) && |wire| > 0 && |evs| > 0
    ensures 1 <= s.k.block <= 255 && conn.half.k == s.k && Synced(Send(s, evs[0]).0.h, conn.half.State())
    ensures Send(s, evs[0]).0.k == s.k && conn.arrivals == Frames(wire[1..])
    ensures SendAll(Send(s, evs[0]).0, evs[1..]).Some?
    ensures SendAll(Send(s, evs[0]).0, evs[1..]).value.1 == Records(wire[1..])
  {
    hide Decrypt, Send, SendAll, Possible, Keys.Lawful, RecordVersion, Synced, Records, HeaderOk, Read, Opens;
    BlockBounds(s.k);
    FirstReady(s, conn, parts, evs, wire);
    DecryptKeepsShape(conn.half.k, conn.half.State(), wire[0]);
    DataRead(conn.State(), parts[0]);
    var failed := conn.ReadRecordOrCCS(false);
    part := conn.input;
    conn.input := [];
  }

  /** Reads for as long as records arrive. */
  method ReadParts(conn: InConn, ghost s: End, ghost parts: seq<Bytes>, ghost evs: seq<Event>, ghost wire: seq<Bytes>)
    returns (got: seq<Bytes>)
    requires Idle(conn) && conn.half.k == s.k && Synced(s.h, conn.half.State()) && s.k.Lawful()
    requires WrittenParts(APPLICATION_DATA, parts, evs) && Versioned(evs, conn.vers)
    requires SendAll(s, evs).Some? && SendAll(s, evs).value.1 == Records(wire) && conn.arrivals == Frames(wire)
    modifies conn, conn.half
    ensures got == parts && Idle(conn) && conn.arrivals == []
    ensures conn.half.k == SendAll(s, evs).value.0.k && Synced(SendAll(s, evs).value.0.h, conn.half.State())
  {
    hide Decrypt, Send, Possible, Keys.Lawful, RecordVersion, Synced, Idle, WrittenParts, Versioned;
    got := [];
    ghost var i, e := 0, s;
    assert evs[0..] == evs && wire[0..] == wire && parts[..0] == [];
    RunLength(s, evs);
    SamePartCount(parts, evs);
    while |conn.arrivals| > 0
      invariant 0 <= i <= |parts| == |wire| == |evs| && got == parts[..i]
      invariant Idle(conn) && conn.half.k == e.k && Synced(e.h, conn.half.State()) && e.k.Lawful()
      invariant conn.vers == old(conn.vers)
      invariant SendAll(e, evs[i..]).Some? && SendAll(e, evs[i..]).value.1 == Records(wire[i..])
      invariant SendAll(e, evs[i..]).value.0 == SendAll(s, evs).value.0
      invariant conn.arrivals == Frames(wire[i..])
      decreases |conn.arrivals|
    {
      Remaining(parts, evs, conn.vers, i);
      assert evs[i..][1..] == evs[i + 1..] && wire[i..][1..] == wire[i + 1..];
      var part := ReadOne(conn, e, parts[i..], evs[i..], wire[i..]);
      got := got + [part];
      e := Send(e, evs[i]).0;
      i := i + 1;
    }
    SendNothing(e);
  }

  lemma SamePartCount(parts: seq<Bytes>, evs: seq<Event>)
    requires WrittenParts(APPLICATION_DATA, parts, evs)
    ensures |parts| == |evs|
  {
  }

  lemma Remaining(parts: seq<Bytes>, evs: seq<Event>, vers: nat, i: nat)
    requires WrittenParts(APPLICATION_DATA, parts, evs) && Versioned(evs, vers) && i <= |parts|
    ensures WrittenParts(APPLICATION_DATA, parts[i..], evs[i..]) && Versioned(evs[i..], vers)
  {
  }

  /** One side writes data, the other reads: it gets the parts the writer cut, in order, and they concatenate
      to the data. */
  method WriteThenRead(from: OutConn, to: InConn, data: Bytes, rand: (nat, nat) -> Bytes) returns (got: seq<Bytes>)
    requires from.Valid() && Sendable(from.out.State(), APPLICATION_DATA) && from.out != to.half
    requires Idle(to) && to.arrivals == [] && to.vers == from.vers
    requires to.half.k == from.out.k && Synced(from.out.State(), to.half.State())
    requires forall i: nat, len: nat :: |rand(i, len)| == len
    modifies from, from.out, to, to.half
    ensures Concat(got) == data && forall p | p in got :: 1 <= |p| <= MAX_PLAINTEXT
    ensures from.out == old(from.out) && from.Valid() && Idle(to) && to.arrivals == []
    ensures to.half.k == from.out.k && Synced(from.out.State(), to.half.State())
  {
    hide SendAll, Keys.Lawful, RecordVersion, Synced, Sendable;
    ghost var s := from.Now();
    var was := |from.wire|;
    var n, parts, evs := from.WriteRecords(APPLICATION_DATA, data, rand);
    var wire := from.wire[was..];
    FramesFit(s, evs, wire);
    to.arrivals := Frames(wire);
    got := ReadParts(to, s, parts, evs, wire);
  }
}
