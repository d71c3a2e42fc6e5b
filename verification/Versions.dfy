/** Version negotiation and the downgrade canaries, end to end: whatever happens to the client's list of
    versions on the way, the client does not settle for less than both sides could do. */
module Versions {
  import opened Wire

  const KNOWN: seq<int> := [TLS13, TLS12, TLS11, TLS10]

  /** The fields of a Config that matter here; 0 is Go's unset. */
  datatype Config = Config(minVersion: int, maxVersion: int, echConfigured: bool)

  predicate Supports(c: Config, isClient: bool, v: int)
  {
    && v in KNOWN
    && !(c.minVersion == 0 && v < TLS12 && isClient)
    && !(isClient && c.echConfigured && v < TLS13)
    && !(c.minVersion != 0 && v < c.minVersion)
    && !(c.maxVersion != 0 && v > c.maxVersion)
  }

  function Only(keep: int -> bool, vs: seq<int>): (r: seq<int>)
  {
    if vs == [] then [] else (if keep(vs[0]) then [vs[0]] else []) + Only(keep, vs[1..])
  }

  lemma {:induction false} OnlyHas(keep: int -> bool, vs: seq<int>, v: int)
    ensures v in Only(keep, vs) <==> v in vs && keep(v)
  {
    if vs != [] {
      OnlyHas(keep, vs[1..], v);
      assert vs == [vs[0]] + vs[1..];
    }
  }

  lemma {:induction false} OnlyAppend(keep: int -> bool, vs: seq<int>, v: int)
    ensures Only(keep, vs + [v]) == Only(keep, vs) + (if keep(v) then [v] else [])
  {
    if vs == [] {
      assert vs + [v] == [v] && [v][1..] == [];
    } else {
      assert (vs + [v])[1..] == vs[1..] + [v];
      OnlyAppend(keep, vs[1..], v);
      var head, tail, last := if keep(vs[0]) then [vs[0]] else [], Only(keep, vs[1..]), if keep(v) then [v] else [];
      assert head + (tail + last) == (head + tail) + last;
    }
  }

  function SupportedList(c: Config, isClient: bool): (r: seq<int>)
  {
    Only(v => Supports(c, isClient, v), KNOWN)
  }

  /** Config.supportedVersions. */
  method SupportedVersions(c: Config, isClient: bool) returns (versions: seq<int>)
    ensures versions == SupportedList(c, isClient)
    ensures forall v :: v in versions <==> Supports(c, isClient, v)
    ensures forall v :: v in versions <==> InRange(c, isClient, v)
    ensures Descending(versions)
  {
    versions := [];
    for i := 0 to |KNOWN|
      invariant versions == Only(v => Supports(c, isClient, v), KNOWN[..i])
    {
      var v := KNOWN[i];
      assert KNOWN[..i + 1] == KNOWN[..i] + [v];
      OnlyAppend(v => Supports(c, isClient, v), KNOWN[..i], v);
      if c.minVersion == 0 && v < TLS12 {
        if isClient { continue; }
      }
      if isClient && c.echConfigured && v < TLS13 { continue; }
      if c.minVersion != 0 && v < c.minVersion { continue; }
      if c.maxVersion != 0 && v > c.maxVersion { continue; }
      versions := versions + [v];
    }
    assert KNOWN[..|KNOWN|] == KNOWN;
    forall v ensures v in versions <==> Supports(c, isClient, v) {
      OnlyHas(v => Supports(c, isClient, v), KNOWN, v);
    }
    ListedExactly(c, isClient);
  }

  /** The highest version a side supports, 0 when it supports none. */
  function Max(c: Config, isClient: bool): (r: int)
    ensures r == 0 <==> forall v :: !Supports(c, isClient, v)
    ensures r != 0 ==> Supports(c, isClient, r)
    ensures forall v | Supports(c, isClient, v) :: v <= r
  {
    if Supports(c, isClient, TLS13) then TLS13
    else if Supports(c, isClient, TLS12) then TLS12
    else if Supports(c, isClient, TLS11) then TLS11
    else if Supports(c, isClient, TLS10) then TLS10
    else 0
  }

  /** Config.maxSupportedVersion: the first of the list is the highest. */
  method MaxSupportedVersion(c: Config, isClient: bool) returns (r: int)
    ensures r == Max(c, isClient)
  {
    var versions := SupportedVersions(c, isClient);
    if |versions| == 0 {
      assert forall v :: v !in versions;
      return 0;
    }
    SupportedUnfold(c, isClient);
    assert versions[0] in versions;
    return versions[0];
  }

  lemma SupportedUnfold(c: Config, isClient: bool)
    ensures var l := SupportedList(c, isClient); l != [] ==> l[0] == Max(c, isClient)
  {
    var keep := v => Supports(c, isClient, v);
    assert KNOWN[1..] == [TLS12, TLS11, TLS10] && KNOWN[1..][1..] == [TLS11, TLS10];
    assert KNOWN[1..][1..][1..] == [TLS10] && KNOWN[1..][1..][1..][1..] == [];
    assert Only(keep, [TLS10]) == (if keep(TLS10) then [TLS10] else []) by { assert [TLS10][1..] == []; }
    assert Only(keep, [TLS11, TLS10]) == (if keep(TLS11) then [TLS11] else []) + Only(keep, [TLS10]);
    assert Only(keep, [TLS12, TLS11, TLS10]) == (if keep(TLS12) then [TLS12] else []) + Only(keep, [TLS11, TLS10]);
  }

  /** The first of the peer's versions that this side supports. */
  function FirstSupported(c: Config, isClient: bool, peers: seq<int>): (r: Option<int>)
    ensures r.Some? ==> r.value in peers && Supports(c, isClient, r.value)
    ensures r.None? ==> forall v | v in peers :: !Supports(c, isClient, v)
  {
    if peers == [] then None
    else if Supports(c, isClient, peers[0]) then Some(peers[0])
    else FirstSupported(c, isClient, peers[1..])
  }

  /** Config.mutualVersion. */
  method MutualVersion(c: Config, isClient: bool, peers: seq<int>) returns (r: Option<int>)
    ensures r == FirstSupported(c, isClient, peers)
  {
    hide Supports, SupportedList;
    var supported := SupportedVersions(c, isClient);
    for i := 0 to |peers|
      invariant FirstSupported(c, isClient, peers) == FirstSupported(c, isClient, peers[i..])
    {
      for j := 0 to |supported|
        invariant peers[i] !in supported[..j]
      {
        if supported[j] == peers[i] {
          assert supported[j] in supported;
          return Some(peers[i]);
        }
      }
      assert supported[..|supported|] == supported;
      assert peers[i..][1..] == peers[i + 1..];
    }
    return None;
  }

  /** supportedVersionsFromMax. */
  method SupportedVersionsFromMax(maxVersion: int) returns (versions: seq<int>)
    ensures versions == Only(v => v <= maxVersion, KNOWN)
  {
    versions := [];
    for i := 0 to |KNOWN|
      invariant versions == Only(v => v <= maxVersion, KNOWN[..i])
    {
      assert KNOWN[..i + 1] == KNOWN[..i] + [KNOWN[i]];
      OnlyAppend(v => v <= maxVersion, KNOWN[..i], KNOWN[i]);
      if KNOWN[i] > maxVersion { continue; }
      versions := versions + [KNOWN[i]];
    }
    assert KNOWN[..|KNOWN|] == KNOWN;
  }

  // ---- The two hellos ----

  /** What the server reads of the ClientHello: anything may have happened to it. */
  datatype ClientOffer = ClientOffer(legacyVersion: int, versions: seq<int>)

  datatype ServerHello = ServerHello(vers: int, supportedVersion: int, random: Bytes)

  /** "DOWNGRD" and a byte. */
  const CANARY12: Bytes := [68, 79, 87, 78, 71, 82, 68, 1]
  const CANARY11: Bytes := [68, 79, 87, 78, 71, 82, 68, 0]

  function Offered(o: ClientOffer): (r: seq<int>)
  {
    if o.versions == [] then Only(v => v <= o.legacyVersion, KNOWN) else o.versions
  }

  predicate PlacesCanary(server: Config, vers: int) { Max(server, false) >= TLS12 && vers < Max(server, false) }

  function ServerRandom(server: Config, vers: int, entropy: Bytes): (r: Bytes)
    requires |entropy| == 32
  {
    if !PlacesCanary(server, vers) then entropy
    else entropy[..24] + (if vers == TLS12 then CANARY12 else CANARY11)
  }

  /** readClientHello's version choice and processClientHello's random; None is an alert. */
  method ServerAnswer(server: Config, o: ClientOffer, entropy: Bytes) returns (r: Option<ServerHello>)
    requires |entropy| == 32
    ensures r == Answer(server, o, entropy)
  {
    var clientVersions := o.versions;
    if |o.versions| == 0 { clientVersions := SupportedVersionsFromMax(o.legacyVersion); }
    var vers := MutualVersion(server, false, clientVersions);
    if vers.None? { return None; }
    var random := new Byte[32](i => 0);
    var n := 32;
    var maxVers := MaxSupportedVersion(server, false);
    if maxVers >= TLS12 && vers.value < maxVers {
      n := 24;
      forall i | 24 <= i < 32 { random[i] := if vers.value == TLS12 then CANARY12[i - 24] else CANARY11[i - 24]; }
    }
    ghost var tail := random[n..];
    forall i | 0 <= i < n { random[i] := entropy[i]; }
    assert random[..] == entropy[..n] + tail;
    assert n == 24 ==> tail == if vers.value == TLS12 then CANARY12 else CANARY11;
    assert random[..] == ServerRandom(server, vers.value, entropy);
    return Some(if vers.value == TLS13 then ServerHello(TLS12, TLS13, random[..])
      else ServerHello(vers.value, 0, random[..]));
  }

  function Answer(server: Config, o: ClientOffer, entropy: Bytes): (r: Option<ServerHello>)
    requires |entropy| == 32
  {
    var vers :- FirstSupported(server, false, Offered(o));
    var random := ServerRandom(server, vers, entropy);
    Some(if vers == TLS13 then ServerHello(TLS12, TLS13, random) else ServerHello(vers, 0, random))
  }

  /** pickTLSVersion and the check of the canaries; None is an alert. */
  function Accepts(client: Config, sh: ServerHello): (r: Option<int>)
    requires |sh.random| == 32
  {
    var vers :- FirstSupported(client, true, [if sh.supportedVersion != 0 then sh.supportedVersion else sh.vers]);
    var maxVers, canary := Max(client, true), sh.random[24..];
    if maxVers == TLS13 && vers <= TLS12 && (canary == CANARY12 || canary == CANARY11) then None
    else if maxVers == TLS12 && vers <= TLS11 && canary == CANARY11 then None
    else Some(vers)
  }

  method ClientAccepts(client: Config, sh: ServerHello) returns (r: Option<int>)
    requires |sh.random| == 32
    ensures r == Accepts(client, sh)
  {
    var peerVersion := sh.vers;
    if sh.supportedVersion != 0 { peerVersion := sh.supportedVersion; }
    var vers := MutualVersion(client, true, [peerVersion]);
    if vers.None? { return None; }
    var maxVers := MaxSupportedVersion(client, true);
    var tls12Downgrade, tls11Downgrade := sh.random[24..] == CANARY12, sh.random[24..] == CANARY11;
    if (maxVers == TLS13 && vers.value <= TLS12 && (tls12Downgrade || tls11Downgrade))
       || (maxVers == TLS12 && vers.value <= TLS11 && tls11Downgrade) {
      return None;
    }
    return vers;
  }

  // ---- The configured range ----

  /** What a Config says of a version, by its fields alone: TLS 1.0 to 1.3, within the minimum and the
      maximum that are set; a client without a minimum starts at TLS 1.2, and one with ECH at TLS 1.3. */
  predicate InRange(c: Config, isClient: bool, v: int)
  {
    && 0x0301 <= v <= 0x0304
    && (c.minVersion != 0 ==> c.minVersion <= v) && (c.maxVersion != 0 ==> v <= c.maxVersion)
    && (isClient && c.minVersion == 0 ==> v >= 0x0303) && (isClient && c.echConfigured ==> v == 0x0304)
  }

  predicate Descending(vs: seq<int>) { forall i, j | 0 <= i < j < |vs| :: vs[i] > vs[j] }

  lemma SupportsExactly(c: Config, isClient: bool, v: int)
    ensures Supports(c, isClient, v) <==> InRange(c, isClient, v)
  {
    assert KNOWN == [0x0304, 0x0303, 0x0302, 0x0301];
    if v in KNOWN { assert v == KNOWN[0] || v == KNOWN[1] || v == KNOWN[2] || v == KNOWN[3]; }
    if 0x0301 <= v <= 0x0304 { assert v == KNOWN[0x0304 - v]; }
  }

  lemma {:induction false} OnlyDescends(keep: int -> bool, vs: seq<int>)
    requires Descending(vs)
    ensures Descending(Only(keep, vs))
  {
    if vs != [] {
      OnlyDescends(keep, vs[1..]);
      var rest := Only(keep, vs[1..]);
      forall j | 0 <= j < |rest| ensures vs[0] > rest[j] {
        OnlyHas(keep, vs[1..], rest[j]);
        assert rest[j] in rest;
        var i :| 0 <= i < |vs[1..]| && vs[1..][i] == rest[j];
        assert vs[i + 1] == rest[j];
      }
    }
  }

  /** The list holds exactly the versions in range, each once, highest first. */
  lemma ListedExactly(c: Config, isClient: bool)
    ensures forall v :: v in SupportedList(c, isClient) <==> InRange(c, isClient, v)
    ensures Descending(SupportedList(c, isClient))
  {
    hide Supports, InRange;
    var keep := v => Supports(c, isClient, v);
    assert Descending(KNOWN);
    OnlyDescends(keep, KNOWN);
    forall v ensures v in SupportedList(c, isClient) <==> InRange(c, isClient, v) {
      OnlyHas(keep, KNOWN, v);
      SupportsExactly(c, isClient, v);
      SupportsKnown(c, isClient, v);
    }
  }

  lemma SupportsKnown(c: Config, isClient: bool, v: int)
    ensures Supports(c, isClient, v) ==> v in KNOWN
  {
  }

  /** The version a ServerHello settles on. */
  function Settled(sh: ServerHello): (v: int) { if sh.supportedVersion != 0 then sh.supportedVersion else sh.vers }

  /** The offer stands for this version. */
  predicate Stands(o: ClientOffer, v: int) { if o.versions == [] then v <= o.legacyVersion else v in o.versions }

  /** The server answers exactly when some version of the offer is in its range, with the first of them; a
      client without the extension stands for all versions up to its legacy one. */
  lemma AnswersInRange(server: Config, o: ClientOffer, entropy: Bytes)
    requires |entropy| == 32
    ensures Answer(server, o, entropy).Some? <==> exists v :: InRange(server, false, v) && Stands(o, v)
    ensures Answer(server, o, entropy).Some? ==>
            var v := Settled(Answer(server, o, entropy).value);
            && InRange(server, false, v) && (o.versions != [] ==> v in o.versions)
            && (o.versions == [] ==> HighestUpTo(server, o.legacyVersion, v))
            && FirstInRange(server, Offered(o), v)
  {
    hide Supports, InRange, ServerRandom;
    forall v { SupportsExactly(server, false, v); }
    OfferedHas(o);
    var first := FirstSupported(server, false, Offered(o));
    FirstIsFirst(server, false, Offered(o));
    if first.Some? {
      assert first.value in Offered(o);
      KnownNotZero(server, first.value);
      if o.versions == [] { HighestFirst(server, o.legacyVersion); }
    }
    forall v | InRange(server, false, v) && Stands(o, v) ensures first.Some? {
      InRangeKnown(server, v);
      assert v in Offered(o);
    }
  }

  /** v is the highest version in range up to a legacy maximum. */
  ghost predicate HighestUpTo(c: Config, legacyVersion: int, v: int)
  {
    v <= legacyVersion && forall w | InRange(c, false, w) && w <= legacyVersion :: w <= v
  }

  /** v is in the list, and nothing before it is in range. */
  ghost predicate FirstInRange(c: Config, vs: seq<int>, v: int)
  {
    exists i | 0 <= i < |vs| :: vs[i] == v && forall j | 0 <= j < i :: !InRange(c, false, vs[j])
  }

  lemma {:induction false} FirstIsFirst(c: Config, isClient: bool, peers: seq<int>)
    ensures FirstSupported(c, isClient, peers).Some? ==>
            exists i | 0 <= i < |peers| ::
              peers[i] == FirstSupported(c, isClient, peers).value &&
              forall j | 0 <= j < i :: !Supports(c, isClient, peers[j])
  {
    hide Supports;
    if peers != [] {
      if Supports(c, isClient, peers[0]) {
        assert peers[0] == FirstSupported(c, isClient, peers).value;
      } else {
        FirstIsFirst(c, isClient, peers[1..]);
        if FirstSupported(c, isClient, peers).Some? {
          var i :| 0 <= i < |peers[1..]| && peers[1..][i] == FirstSupported(c, isClient, peers[1..]).value &&
            forall j | 0 <= j < i :: !Supports(c, isClient, peers[1..][j]);
          forall j | 0 <= j < i + 1 ensures !Supports(c, isClient, peers[j]) {
            if j > 0 { assert peers[j] == peers[1..][j - 1]; }
          }
          assert peers[i + 1] == peers[1..][i];
        }
      }
    }
  }

  lemma OfferedHas(o: ClientOffer)
    ensures o.versions == [] ==> forall v :: v in Offered(o) <==> v in KNOWN && v <= o.legacyVersion
    ensures o.versions != [] ==> Offered(o) == o.versions
  {
    forall v ensures o.versions == [] ==> (v in Offered(o) <==> v in KNOWN && v <= o.legacyVersion) {
      OnlyHas(w => w <= o.legacyVersion, KNOWN, v);
    }
  }

  lemma InRangeKnown(c: Config, v: int)
    requires InRange(c, false, v)
    ensures v in KNOWN
  {
    assert v == KNOWN[0x0304 - v];
  }

  lemma KnownNotZero(c: Config, v: int)
    requires Supports(c, false, v)
    ensures v != 0
  {
  }

  lemma HighestFirst(c: Config, legacyVersion: int)
    ensures var first := FirstSupported(c, false, Only(v => v <= legacyVersion, KNOWN));
            first.Some? ==> forall w | InRange(c, false, w) && w <= legacyVersion :: w <= first.value
  {
    hide Supports, InRange;
    var keep := v => v <= legacyVersion;
    var l := Only(keep, KNOWN);
    assert Descending(KNOWN);
    OnlyDescends(keep, KNOWN);
    FirstIsFirst(c, false, l);
    var first := FirstSupported(c, false, l);
    forall w | first.Some? && InRange(c, false, w) && w <= legacyVersion ensures w <= first.value {
      InRangeKnown(c, w);
      SupportsExactly(c, false, w);
      OnlyHas(keep, KNOWN, w);
      var i :| 0 <= i < |l| && l[i] == first.value && forall j | 0 <= j < i :: !Supports(c, false, l[j]);
      var k :| 0 <= k < |l| && l[k] == w;
    }
  }

  /** The client settles on the version the server names or on none; never on one out of its own range. */
  lemma AcceptsInRange(client: Config, sh: ServerHello)
    requires |sh.random| == 32
    ensures Accepts(client, sh).Some? ==> Accepts(client, sh).value == Settled(sh) && InRange(client, true, Settled(sh))
    ensures InRange(client, true, Settled(sh)) && sh.random[24..] != CANARY12 && sh.random[24..] != CANARY11 ==>
            Accepts(client, sh) == Some(Settled(sh))
  {
    SupportsExactly(client, true, Settled(sh));
  }

  /** Between the two: what is settled on is in the range of both, and was offered. */
  lemma SettledInBothRanges(client: Config, server: Config, o: ClientOffer, entropy: Bytes)
    requires |entropy| == 32 && Answer(server, o, entropy).Some? && |Answer(server, o, entropy).value.random| == 32
    requires Accepts(client, Answer(server, o, entropy).value).Some?
    ensures var v := Accepts(client, Answer(server, o, entropy).value).value;
            && InRange(client, true, v) && InRange(server, false, v) && (o.versions != [] ==> v in o.versions)
  {
    hide Answer, Accepts, InRange;
    AnswersInRange(server, o, entropy);
    AcceptsInRange(client, Answer(server, o, entropy).value);
  }

  // ---- The guarantee ----

  function Lower(client: Config, server: Config): (r: int)
  {
    if Max(client, true) < Max(server, false) then Max(client, true) else Max(server, false)
  }

  lemma AnswerShape(server: Config, o: ClientOffer, entropy: Bytes)
    requires |entropy| == 32 && Answer(server, o, entropy).Some?
    ensures var sh := Answer(server, o, entropy).value; var vers := FirstSupported(server, false, Offered(o)).value;
      && |sh.random| == 32 && Supports(server, false, vers)
      && (if sh.supportedVersion != 0 then sh.supportedVersion else sh.vers) == vers
      && sh.random[24..] ==
         (if !PlacesCanary(server, vers) then entropy[24..] else if vers == TLS12 then CANARY12 else CANARY11)
  {
  }

  /** The lower maximum is common to both as soon as anything is. */
  lemma LowerIsCommon(client: Config, server: Config, v: int)
    requires InRange(client, true, v) && InRange(server, false, v)
    ensures InRange(client, true, Lower(client, server)) && InRange(server, false, Lower(client, server))
    ensures v <= Lower(client, server)
  {
    hide Supports;
    forall w { SupportsExactly(client, true, w); }
    forall w { SupportsExactly(server, false, w); }
  }

  /** An offer no one has touched: the two settle on the highest version in the range of both, unless the random
      bytes happen to end like a canary. */
  lemma UntamperedSettles(client: Config, server: Config, legacyVersion: int, entropy: Bytes, v: int)
    requires |entropy| == 32 && entropy[24..] != CANARY12 && entropy[24..] != CANARY11
    requires InRange(client, true, v) && InRange(server, false, v)
    ensures var o := ClientOffer(legacyVersion, SupportedList(client, true));
            && Answer(server, o, entropy).Some? && |Answer(server, o, entropy).value.random| == 32
            && Accepts(client, Answer(server, o, entropy).value) == Some(Lower(client, server))
    ensures v <= Lower(client, server)
  {
    hide Supports, InRange, SupportedList, Answer, PlacesCanary, ServerRandom;
    var o := ClientOffer(legacyVersion, SupportedList(client, true));
    var low := Lower(client, server);
    LowerIsCommon(client, server, v);
    ListedExactly(client, true);
    assert low in o.versions && Stands(o, low);
    AnswersInRange(server, o, entropy);
    var sh := Answer(server, o, entropy).value;
    var vers := Settled(sh);
    assert vers >= low by {
      var i :| 0 <= i < |o.versions| && o.versions[i] == vers &&
        forall j | 0 <= j < i :: !InRange(server, false, o.versions[j]);
      var k :| 0 <= k < |o.versions| && o.versions[k] == low;
    }
    LowerIsCommon(client, server, vers);
    AnswerShape(server, o, entropy);
    AcceptsUntampered(client, server, sh, entropy);
  }

  lemma AcceptsUntampered(client: Config, server: Config, sh: ServerHello, entropy: Bytes)
    requires |entropy| == 32 && |sh.random| == 32 && entropy[24..] != CANARY12 && entropy[24..] != CANARY11
    requires Settled(sh) == Lower(client, server) && InRange(client, true, Settled(sh))
    requires sh.random[24..] == if !PlacesCanary(server, Settled(sh)) then entropy[24..]
                                else if Settled(sh) == TLS12 then CANARY12 else CANARY11
    ensures Accepts(client, sh) == Some(Settled(sh))
  {
    hide Supports, InRange;
    SupportsExactly(client, true, Settled(sh));
    assert CANARY12[7] == 1 && CANARY11[7] == 0;
  }

  /** With both maxima at least TLS 1.2, no tampering with the offered versions makes the client accept
      less than the lower maximum. */
  lemma NoDowngrade(client: Config, server: Config, o: ClientOffer, entropy: Bytes)
    requires Max(client, true) >= TLS12 && Max(server, false) >= TLS12
    requires |entropy| == 32 && Answer(server, o, entropy).Some? && |Answer(server, o, entropy).value.random| == 32
    requires Accepts(client, Answer(server, o, entropy).value).Some?
    ensures Accepts(client, Answer(server, o, entropy).value).value >= Lower(client, server)
  {
    AnswerShape(server, o, entropy);
  }

  /** Some tampering makes the client accept a version below the lower maximum. */
  ghost predicate CanDowngrade(client: Config, server: Config)
  {
    exists o: ClientOffer, entropy: Bytes ::
      && |entropy| == 32 && Answer(server, o, entropy).Some? && |Answer(server, o, entropy).value.random| == 32
      && Accepts(client, Answer(server, o, entropy).value).Some?
      && Accepts(client, Answer(server, o, entropy).value).value < Lower(client, server)
  }

  /** The exact condition: a maximum below TLS 1.2 on either side, and a common version below both
      maxima. */
  lemma DowngradeExactly(client: Config, server: Config)
    ensures CanDowngrade(client, server) <==>
            && (Max(client, true) < TLS12 || Max(server, false) < TLS12)
            && exists v :: Supports(client, true, v) && Supports(server, false, v) && v < Lower(client, server)
  {
    if CanDowngrade(client, server) {
      var o: ClientOffer, entropy: Bytes :|
        && |entropy| == 32 && Answer(server, o, entropy).Some? && |Answer(server, o, entropy).value.random| == 32
        && Accepts(client, Answer(server, o, entropy).value).Some?
        && Accepts(client, Answer(server, o, entropy).value).value < Lower(client, server);
      AnswerShape(server, o, entropy);
      var v := Accepts(client, Answer(server, o, entropy).value).value;
      assert Supports(client, true, v) && Supports(server, false, v);
      if Max(client, true) >= TLS12 && Max(server, false) >= TLS12 { NoDowngrade(client, server, o, entropy); }
    }
    if Max(client, true) < TLS12 || Max(server, false) < TLS12 {
      forall v | Supports(client, true, v) && Supports(server, false, v) && v < Lower(client, server)
        ensures CanDowngrade(client, server)
      {
        LegacyDowngrade(client, server, v);
      }
    }
  }

  /** The tampering: the list cut down to one low version. */
  lemma LegacyDowngrade(client: Config, server: Config, v: int)
    requires Max(client, true) < TLS12 || Max(server, false) < TLS12
    requires Supports(client, true, v) && Supports(server, false, v) && v < Lower(client, server)
    ensures CanDowngrade(client, server)
  {
    var o, entropy: Bytes := ClientOffer(TLS12, [v]), seq(32, _ => 0);
    assert FirstSupported(server, false, [v]) == Some(v);
    AnswerShape(server, o, entropy);
    var sh := Answer(server, o, entropy).value;
    assert entropy[24..][0] == 0 && CANARY12[0] == 68 && CANARY11[0] == 68;
    assert Accepts(client, sh) == Some(v);
  }

  /** A client and a server that both stop at TLS 1.1 can be brought down to TLS 1.0. */
  lemma OldPeersCanDowngrade()
    ensures CanDowngrade(Config(TLS10, TLS11, false), Config(0, TLS11, false))
  {
    LegacyDowngrade(Config(TLS10, TLS11, false), Config(0, TLS11, false), TLS10);
  }
}
