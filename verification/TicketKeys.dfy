/** Automatic rotation of session ticket keys, and how long a ticket stays decryptable. Times are in
    nanoseconds; clock(i) is the value of the i-th reading of Config.time. */
module TicketKeys {
  import opened Wire
  import opened SessionState

  const HOUR := 3_600_000_000_000
  const ROTATION := 24 * HOUR
  const LIFETIME := 7 * ROTATION

  datatype Key = Key(aesKey: Bytes, hmacKey: Bytes, created: int)

  ghost predicate Monotone(clock: nat -> int)
  {
    forall i: nat, j: nat | i <= j :: clock(i) <= clock(j)
  }

  // ---- One critical section ----

  /** The filter loop of a rotation: one clock reading per key. */
  function Kept(clock: nat -> int, tick: nat, keys: seq<Key>): (r: seq<Key>)
    decreases |keys|
  {
    if keys == [] then [] else
    (if clock(tick) - keys[0].created < LIFETIME then [keys[0]] else []) + Kept(clock, tick + 1, keys[1..])
  }

  predicate Stale(clock: nat -> int, tick: nat, keys: seq<Key>)
  {
    keys == [] || clock(tick) - keys[0].created >= ROTATION
  }

  /** The next reading after the staleness test, which reads the clock only when there is a key. */
  function Tested(tick: nat, keys: seq<Key>): (r: nat) { if keys == [] then tick else tick + 1 }

  datatype Store = Store(keys: seq<Key>, tick: nat)

  /** The section under the exclusive lock. newKey is the new key material. */
  function Rotated(clock: nat -> int, s: Store, newKey: (Bytes, Bytes)): (r: Store)
  {
    var t := Tested(s.tick, s.keys);
    if Stale(clock, s.tick, s.keys)
    then Store([Key(newKey.0, newKey.1, clock(t))] + Kept(clock, t + 1, s.keys), t + 1 + |s.keys|)
    else Store(s.keys, t)
  }

  // ---- The invariant ----

  /** Newest first, each at least a rotation older than the one before, none a lifetime older than the
      newest, and the newest not from the future. */
  ghost predicate Ordered(clock: nat -> int, s: Store)
  {
    && Spaced(s.keys)
    && (s.keys != [] ==> s.keys[0].created <= clock(s.tick))
    && forall k | k in s.keys :: s.keys[0].created - k.created < LIFETIME
  }

  predicate Spaced(keys: seq<Key>)
  {
    forall i | 0 < i < |keys| :: keys[i - 1].created - keys[i].created >= ROTATION
  }

  lemma {:induction false} SpacedApart(keys: seq<Key>, i: nat, j: nat)
    requires Spaced(keys) && i <= j < |keys|
    ensures keys[i].created - keys[j].created >= (j - i) * ROTATION
  {
    if i < j {
      SpacedApart(keys, i, j - 1);
      assert (j - i) * ROTATION == (j - 1 - i) * ROTATION + ROTATION;
    }
  }

  /** Never more than seven keys. */
  lemma AtMostSeven(clock: nat -> int, s: Store)
    requires Ordered(clock, s)
    ensures |s.keys| <= 7
  {
    if s.keys != [] {
      var last := |s.keys| - 1;
      assert s.keys[last] in s.keys;
      SpacedApart(s.keys, 0, last);
    }
  }

  lemma {:induction false} KeptSpaced(clock: nat -> int, tick: nat, keys: seq<Key>)
    requires Spaced(keys)
    ensures Spaced(Kept(clock, tick, keys))
    ensures Kept(clock, tick, keys) != [] ==> Kept(clock, tick, keys)[0].created <= keys[0].created
    ensures forall k | k in Kept(clock, tick, keys) :: k in keys
    decreases |keys|
  {
    if keys != [] {
      var tail := Kept(clock, tick + 1, keys[1..]);
      assert Spaced(keys[1..]) by {
        forall i | 0 < i < |keys[1..]| ensures keys[1..][i - 1].created - keys[1..][i].created >= ROTATION {
          assert keys[1..][i - 1] == keys[i] && keys[1..][i] == keys[i + 1];
        }
      }
      KeptSpaced(clock, tick + 1, keys[1..]);
      assert tail != [] ==> keys[0].created - tail[0].created >= ROTATION;
    }
  }

  /** A kept key was young at some reading from tick on; a dropped one was not. */
  lemma {:induction false} KeptWhileYoung(clock: nat -> int, tick: nat, keys: seq<Key>, k: Key)
    requires Monotone(clock) && k in keys
    ensures k in Kept(clock, tick, keys) ==> clock(tick) - k.created < LIFETIME
    ensures clock(tick + |keys|) - k.created < LIFETIME ==> k in Kept(clock, tick, keys)
    decreases |keys|
  {
    assert keys == [keys[0]] + keys[1..];
    if k in keys[1..] { KeptWhileYoung(clock, tick + 1, keys[1..], k); }
    if k in Kept(clock, tick + 1, keys[1..]) && k !in keys[1..] { KeptComeFrom(clock, tick + 1, keys[1..]); }
  }

  lemma {:induction false} KeptComeFrom(clock: nat -> int, tick: nat, keys: seq<Key>)
    ensures forall k | k in Kept(clock, tick, keys) :: k in keys
    decreases |keys|
  {
    if keys != [] { KeptComeFrom(clock, tick + 1, keys[1..]); }
  }

  lemma RotationKeepsOrder(clock: nat -> int, s: Store, newKey: (Bytes, Bytes))
    requires Monotone(clock) && Ordered(clock, s)
    ensures Ordered(clock, Rotated(clock, s, newKey))
  {
    hide Kept;
    var t, s' := Tested(s.tick, s.keys), Rotated(clock, s, newKey);
    if Stale(clock, s.tick, s.keys) {
      var kept := Kept(clock, t + 1, s.keys);
      KeptSpaced(clock, t + 1, s.keys);
      assert clock(s.tick) <= clock(t) <= clock(t + 1) <= clock(s'.tick);
      forall k | k in s'.keys ensures clock(t) - k.created < LIFETIME {
        if k != s'.keys[0] {
          assert k in kept;
          KeptWhileYoung(clock, t + 1, s.keys, k);
        }
      }
      forall i | 0 < i < |s'.keys| ensures s'.keys[i - 1].created - s'.keys[i].created >= ROTATION {
        assert s'.keys[i] == kept[i - 1];
        if i > 1 { assert s'.keys[i - 1] == kept[i - 2]; }
      }
    } else {
      assert clock(s.tick) <= clock(s'.tick);
    }
  }

  // ---- Whole runs ----

  /** What can happen between two clock readings of a Config: another connection reads the clock on the
      fast path, time is read elsewhere, or a connection runs the exclusive section. */
  datatype Step = Read | Rotate(newKey: (Bytes, Bytes))

  function After(clock: nat -> int, s: Store, step: Step): (r: Store)
  {
    match step
    case Read => Store(s.keys, s.tick + 1)
    case Rotate(newKey) => Rotated(clock, s, newKey)
  }

  function Run(clock: nat -> int, s: Store, steps: seq<Step>): (r: Store)
    decreases |steps|
  {
    if steps == [] then s else Run(clock, After(clock, s, steps[0]), steps[1..])
  }

  lemma StepKeeps(clock: nat -> int, s: Store, step: Step)
    requires Monotone(clock) && Ordered(clock, s)
    ensures Ordered(clock, After(clock, s, step)) && s.tick <= After(clock, s, step).tick
    ensures forall k | k in s.keys && clock(After(clock, s, step).tick) - k.created < LIFETIME ::
              k in After(clock, s, step).keys
  {
    hide Kept;
    var s' := After(clock, s, step);
    match step
    case Read => assert clock(s.tick) <= clock(s'.tick);
    case Rotate(newKey) =>
      RotationKeepsOrder(clock, s, newKey);
      var t := Tested(s.tick, s.keys);
      forall k | k in s.keys && clock(s'.tick) - k.created < LIFETIME ensures k in s'.keys {
        KeptWhileYoung(clock, t + 1, s.keys, k);
      }
  }

  /** In every run: the order, the spacing and the bound of seven hold throughout, and a key that was
      ever in the list is still there as long as it is younger than seven days. */
  lemma {:induction false} RunKeeps(clock: nat -> int, s: Store, steps: seq<Step>)
    requires Monotone(clock) && Ordered(clock, s)
    ensures Ordered(clock, Run(clock, s, steps)) && |Run(clock, s, steps).keys| <= 7
    ensures s.tick <= Run(clock, s, steps).tick
    ensures forall k | k in s.keys && clock(Run(clock, s, steps).tick) - k.created < 604_800_000_000_000 ::
              k in Run(clock, s, steps).keys
    decreases |steps|
  {
    if steps != [] {
      var s1 := After(clock, s, steps[0]);
      StepKeeps(clock, s, steps[0]);
      RunKeeps(clock, s1, steps[1..]);
      assert clock(s1.tick) <= clock(Run(clock, s, steps).tick);
    } else {
      AtMostSeven(clock, s);
    }
  }

  /** The keys a connection is given: on the fast path when the newest is fresh, and otherwise what the
      exclusive section leaves. None is eight days old at the staleness test. */
  lemma ReturnedKeysAreYoung(clock: nat -> int, s: Store, newKey: (Bytes, Bytes))
    requires Monotone(clock) && Ordered(clock, s)
    ensures forall k | k in Rotated(clock, s, newKey).keys :: clock(s.tick) - k.created < 691_200_000_000_000
    ensures Rotated(clock, s, newKey).keys != []
    ensures !Stale(clock, s.tick, s.keys) ==> Rotated(clock, s, newKey).keys == s.keys
    ensures Stale(clock, s.tick, s.keys) ==> Rotated(clock, s, newKey).keys[0].created >= clock(s.tick)
  {
    RotationKeepsOrder(clock, s, newKey);
    hide Kept;
    assert clock(s.tick) <= clock(Tested(s.tick, s.keys));
  }

  // ---- The tickets ----

  const BLOCK := 16
  const MAC := 32

  /** The two primitives: CTR key stream XOR and HMAC-SHA256. */
  datatype Crypto = Crypto(ctr: (Bytes, Bytes, Bytes) -> Bytes, mac: (Bytes, Bytes) -> Bytes)
  {
    ghost predicate Lawful()
    {
      && (forall key: Bytes, iv: Bytes, d: Bytes :: ctr(key, iv, ctr(key, iv, d)) == d && |ctr(key, iv, d)| == |d|)
      && (forall key: Bytes, d: Bytes :: |mac(key, d)| == MAC)
    }
  }

  function Sealed(c: Crypto, key: Key, iv: Bytes, state: Bytes): (r: Bytes)
  {
    var authenticated := iv + c.ctr(key.aesKey, iv, state);
    authenticated + c.mac(key.hmacKey, authenticated)
  }

  predicate Matches(c: Crypto, key: Key, ticket: Bytes)
    requires |ticket| >= BLOCK + MAC
  {
    c.mac(key.hmacKey, ticket[..|ticket| - MAC]) == ticket[|ticket| - MAC..]
  }

  /** decryptTicket as a search: the first key whose MAC matches decides. */
  function Opened(c: Crypto, keys: seq<Key>, ticket: Bytes): (r: Option<Bytes>)
  {
    if |ticket| < BLOCK + MAC || keys == [] then None
    else if Matches(c, keys[0], ticket) then Some(c.ctr(keys[0].aesKey, ticket[..BLOCK], ticket[BLOCK..|ticket| - MAC]))
    else Opened(c, keys[1..], ticket)
  }

  /** encryptTicket: the buffer is filled region by region. */
  method EncryptTicket(c: Crypto, keys: seq<Key>, iv: Bytes, state: Bytes) returns (encrypted: array?<Byte>)
    requires c.Lawful() && |iv| == BLOCK
    ensures encrypted == null <==> keys == []
    ensures encrypted != null ==> fresh(encrypted) && encrypted[..] == Sealed(c, keys[0], iv, state)
  {
    if keys == [] { return null; }
    var n := BLOCK + |state| + MAC;
    encrypted := new Byte[n](_ => 0);
    Fill(encrypted, 0, iv);
    var ciphertext := c.ctr(keys[0].aesKey, encrypted[..BLOCK], state);
    Fill(encrypted, BLOCK, ciphertext);
    assert encrypted[..n - MAC] == encrypted[..BLOCK] + encrypted[BLOCK..n - MAC];
    var mac := c.mac(keys[0].hmacKey, encrypted[..n - MAC]);
    Fill(encrypted, n - MAC, mac);
    assert encrypted[..] == encrypted[..n - MAC] + encrypted[n - MAC..];
  }

  method Fill(b: array<Byte>, at: nat, src: Bytes)
    requires at + |src| <= b.Length
    modifies b
    ensures b[..at] == old(b[..at]) && b[at..at + |src|] == src && b[at + |src|..] == old(b[at + |src|..])
  {
    for i := 0 to |src|
      invariant b[..at] == old(b[..at])
      invariant forall j | 0 <= j < i :: b[at + j] == src[j]
      invariant forall j | at + i <= j < b.Length :: b[j] == old(b[j])
    {
      b[at + i] := src[i];
    }
  }

  /** decryptTicket. */
  method DecryptTicket(c: Crypto, keys: seq<Key>, ticket: Bytes) returns (r: Option<Bytes>)
    ensures r == Opened(c, keys, ticket)
  {
    if |ticket| < BLOCK + MAC { return None; }
    var i := 0;
    while i < |keys|
      invariant i <= |keys| && Opened(c, keys, ticket) == Opened(c, keys[i..], ticket)
    {
      var expected := c.mac(keys[i].hmacKey, ticket[..|ticket| - MAC]);
      if expected == ticket[|ticket| - MAC..] {
        return Some(c.ctr(keys[i].aesKey, ticket[..BLOCK], ticket[BLOCK..|ticket| - MAC]));
      }
      assert keys[i..][1..] == keys[i + 1..];
      i := i + 1;
    }
    return None;
  }

  /** No other key of the list gives the ticket's MAC. */
  ghost predicate OnlyMatch(c: Crypto, keys: seq<Key>, key: Key, ticket: Bytes)
    requires |ticket| >= BLOCK + MAC
  {
    forall k | k in keys && Matches(c, k, ticket) :: k == key
  }

  lemma {:induction false} OpensSealed(c: Crypto, keys: seq<Key>, key: Key, iv: Bytes, state: Bytes)
    requires c.Lawful() && |iv| == BLOCK && key in keys
    requires |Sealed(c, key, iv, state)| >= BLOCK + MAC && OnlyMatch(c, keys, key, Sealed(c, key, iv, state))
    ensures Opened(c, keys, Sealed(c, key, iv, state)) == Some(state)
    decreases |keys|
  {
    var ticket := Sealed(c, key, iv, state);
    var ct := c.ctr(key.aesKey, iv, state);
    assert ticket[..|ticket| - MAC] == iv + ct && ticket[|ticket| - MAC..] == c.mac(key.hmacKey, iv + ct);
    assert ticket[..BLOCK] == iv && ticket[BLOCK..|ticket| - MAC] == ct;
    assert Matches(c, key, ticket);
    assert keys[0] in keys;
    if !Matches(c, keys[0], ticket) { OpensSealed(c, keys[1..], key, iv, state); }
  }

  /** The ticket is what one of the keys seals to, with this IV. */
  ghost predicate SealedBy(c: Crypto, keys: seq<Key>, iv: Bytes, state: Bytes, ticket: Bytes)
  {
    |iv| == 16 && exists i | 0 <= i < |keys| :: ticket == Sealed(c, keys[i], iv, state)
  }

  lemma MatchIsSealed(c: Crypto, key: Key, ticket: Bytes)
    requires c.Lawful() && |ticket| >= BLOCK + MAC
    ensures Matches(c, key, ticket) ==>
            ticket == Sealed(c, key, ticket[..BLOCK], c.ctr(key.aesKey, ticket[..BLOCK], ticket[BLOCK..|ticket| - MAC]))
    ensures forall iv: Bytes, state: Bytes ::
              |iv| == 16 && ticket == Sealed(c, key, iv, state) ==> Matches(c, key, ticket)
  {
    var iv, ct, n := ticket[..BLOCK], ticket[BLOCK..|ticket| - MAC], |ticket| - MAC;
    assert ticket[..n] == iv + ct && ticket == ticket[..n] + ticket[n..];
    forall iv: Bytes, state: Bytes | |iv| == 16 && ticket == Sealed(c, key, iv, state) ensures Matches(c, key, ticket) {
      var a := iv + c.ctr(key.aesKey, iv, state);
      assert ticket[..n] == a && ticket[n..] == c.mac(key.hmacKey, a);
    }
  }

  /** For any bytes: a ticket opens exactly when one of the keys seals something to it, and then to that. */
  lemma {:induction false} OpenedExactly(c: Crypto, keys: seq<Key>, ticket: Bytes)
    requires c.Lawful()
    ensures Opened(c, keys, ticket).Some? <==> exists iv, state :: SealedBy(c, keys, iv, state, ticket)
    ensures Opened(c, keys, ticket).Some? ==>
            |ticket| >= 48 && SealedBy(c, keys, ticket[..16], Opened(c, keys, ticket).value, ticket)
    decreases |keys|
  {
    hide Sealed, Matches;
    forall iv, state | SealedBy(c, keys, iv, state, ticket) ensures |ticket| >= 48 {
      var i :| 0 <= i < |keys| && ticket == Sealed(c, keys[i], iv, state);
      SealedSize(c, keys[i], iv, state);
    }
    if |ticket| >= 48 && keys != [] {
      MatchIsSealed(c, keys[0], ticket);
      OpenedExactly(c, keys[1..], ticket);
      FirstOrLater(c, keys, ticket);
    }
  }

  lemma SealedSize(c: Crypto, key: Key, iv: Bytes, state: Bytes)
    requires c.Lawful() && |iv| == 16
    ensures |Sealed(c, key, iv, state)| == 48 + |state|
  {
  }

  lemma FirstOrLater(c: Crypto, keys: seq<Key>, ticket: Bytes)
    requires keys != []
    ensures forall iv, state :: SealedBy(c, keys, iv, state, ticket) <==>
              (|iv| == 16 && ticket == Sealed(c, keys[0], iv, state)) || SealedBy(c, keys[1..], iv, state, ticket)
  {
    hide Sealed;
    forall iv, state
      ensures SealedBy(c, keys, iv, state, ticket) <==>
              (|iv| == 16 && ticket == Sealed(c, keys[0], iv, state)) || SealedBy(c, keys[1..], iv, state, ticket)
    {
      if SealedBy(c, keys, iv, state, ticket) {
        var i :| 0 <= i < |keys| && ticket == Sealed(c, keys[i], iv, state);
        if i > 0 { assert keys[1..][i - 1] == keys[i]; }
      }
      if SealedBy(c, keys[1..], iv, state, ticket) {
        var i :| 0 <= i < |keys[1..]| && ticket == Sealed(c, keys[1..][i], iv, state);
        assert keys[i + 1] == keys[1..][i];
      }
    }
  }

  /** A ticket sealed with the newest key at any point of a run opens to the session it was made from,
      at every later point at which that key is younger than seven days. */
  lemma TicketStaysDecryptable(clock: nat -> int, s: Store, steps: seq<Step>, c: Crypto, valid: Bytes -> bool,
                               iv: Bytes, session: Session)
    requires Monotone(clock) && Ordered(clock, s) && s.keys != [] && c.Lawful() && |iv| == BLOCK
    requires Typed(session) && Encode(session).Some? && Decodable(valid, session)
    requires var later := Run(clock, s, steps); var ticket := Sealed(c, s.keys[0], iv, Encode(session).value);
      && clock(later.tick) - s.keys[0].created < 604_800_000_000_000
      && |ticket| >= BLOCK + MAC && OnlyMatch(c, later.keys, s.keys[0], ticket)
    ensures var plain := Opened(c, Run(clock, s, steps).keys, Sealed(c, s.keys[0], iv, Encode(session).value));
      plain.Some? && Parse(valid, plain.value) == Some(Normal(session))
  {
    hide Encode, Parse, Opened, Run, Sealed, Decodable, OnlyMatch;
    RunKeeps(clock, s, steps);
    OpensSealed(c, Run(clock, s, steps).keys, s.keys[0], iv, Encode(session).value);
    ParseUndoesBytes(valid, session);
  }

  // ---- The Config object ----

  class Clock {
    const at: nat -> int
    var tick: nat

    constructor (at: nat -> int)
      ensures this.at == at && tick == 0
    {
      this.at := at;
      tick := 0;
    }

    method Now() returns (t: int)
      modifies this
      ensures t == at(old(tick)) && tick == old(tick) + 1
    {
      t := at(tick);
      tick := tick + 1;
    }
  }

  /** The deprecated SessionTicketKey field: unset, randomised by the library, or set by the user. */
  datatype Legacy = Unset | Randomised | Given(material: (Bytes, Bytes))

  datatype ClientAnswer = Disabled | Explicit(keys: seq<Key>) | UseServerConfig

  class Config {
    var disabled: bool
    var legacy: Legacy
    var setKeys: seq<Key>     // sessionTicketKeys
    var autoKeys: seq<Key>    // autoSessionTicketKeys
    var readers: int          // read locks held on mutex by this call

    /** initLegacySessionTicketKeyRLocked. */
    method InitLegacy(clock: Clock)
      modifies this, clock
      ensures disabled == old(disabled) && autoKeys == old(autoKeys) && readers == old(readers)
      ensures legacy == if old(legacy).Unset? then Randomised else old(legacy)
      ensures old(legacy).Given? && old(setKeys) == [] ==>
                && |setKeys| == 1 && (setKeys[0].aesKey, setKeys[0].hmacKey) == old(legacy).material
                && old(clock.tick) < clock.tick
      ensures !(old(legacy).Given? && old(setKeys) == []) ==> setKeys == old(setKeys) && clock.tick == old(clock.tick)
    {
      if legacy.Randomised? || (legacy.Given? && setKeys != []) { return; }
      readers := readers - 1;
      if legacy.Unset? {
        legacy := Randomised;
      } else if setKeys == [] {
        var t := clock.Now();
        setKeys := [Key(legacy.material.0, legacy.material.1, t)];
      }
      readers := readers + 1;
    }

    /** The part of ticketKeys that looks at the Config a GetConfigForClient callback returned. The
        read lock is given back on every path but one: a Config with tickets disabled stays locked. */
    method ClientKeys(clock: Clock) returns (r: ClientAnswer)
      modifies this, clock
      ensures r.Disabled? <==> old(disabled)
      ensures r.Explicit? ==> r.keys == setKeys != []
      ensures r.UseServerConfig? ==> setKeys == [] && !old(legacy).Given?
      ensures readers == old(readers) + (if old(disabled) then 1 else 0)
      ensures autoKeys == old(autoKeys)
    {
      readers := readers + 1;
      if disabled { return Disabled; }
      InitLegacy(clock);
      r := if setKeys != [] then Explicit(setKeys) else UseServerConfig;
      readers := readers - 1;
    }

    ghost predicate Valid(clock: Clock)
      reads this, clock
    {
      Monotone(clock.at) && Ordered(clock.at, Store(autoKeys, clock.tick))
    }

    /** The rest of ticketKeys, on the server's own Config. material is what the random source would
        give for a new key. */
    method OwnKeys(clock: Clock, material: (Bytes, Bytes)) returns (keys: Option<seq<Key>>)
      requires Valid(clock)
      modifies this, clock
      ensures Valid(clock) && readers == old(readers) && old(clock.tick) <= clock.tick
      ensures keys.None? <==> old(disabled)
      ensures keys.Some? ==> keys.value == if setKeys != [] then setKeys else autoKeys
      ensures forall k | k in old(autoKeys) && clock.at(clock.tick) - k.created < LIFETIME :: k in autoKeys
      ensures keys.Some? && setKeys == [] ==> 0 < |keys.value| <= 7
      ensures keys.Some? && setKeys == [] ==>
              forall k | k in keys.value :: clock.at(old(clock.tick)) - k.created < LIFETIME + ROTATION
    {
      hide Kept, Rotated, Spaced;
      var start := clock.tick;
      if disabled { return None; }
      InitLegacy(clock);
      Later(clock.at, autoKeys, start, clock.tick);
      if setKeys != [] { return Some(setKeys); }
      ghost var before := Store(autoKeys, clock.tick);
      ReturnedKeysAreYoung(clock.at, before, material);
      AtMostSeven(clock.at, before);
      if autoKeys != [] {
        var t := clock.Now();
        Later(clock.at, autoKeys, clock.tick - 1, clock.tick);
        if t - autoKeys[0].created < ROTATION { return Some(autoKeys); }
      }
      ghost var s := Store(autoKeys, clock.tick);
      Rotate(clock, material);
      StepKeeps(clock.at, s, Step.Rotate(material));
      ReturnedKeysAreYoung(clock.at, s, material);
      AtMostSeven(clock.at, Store(autoKeys, clock.tick));
      return Some(autoKeys);
    }

    /** The section under the exclusive lock. */
    method Rotate(clock: Clock, material: (Bytes, Bytes))
      modifies this`autoKeys, clock
      ensures Store(autoKeys, clock.tick) == Rotated(clock.at, Store(old(autoKeys), old(clock.tick)), material)
    {
      var stale := autoKeys == [];
      if !stale {
        var t := clock.Now();
        stale := t - autoKeys[0].created >= ROTATION;
      }
      if stale {
        var created := clock.Now();
        var valid := [Key(material.0, material.1, created)];
        var young := KeepYoung(clock);
        autoKeys := valid + young;
      }
    }

    /** The loop that drops expired keys. */
    method KeepYoung(clock: Clock) returns (young: seq<Key>)
      modifies clock
      ensures young == Kept(clock.at, old(clock.tick), autoKeys) && clock.tick == old(clock.tick) + |autoKeys|
    {
      young := [];
      ghost var first := clock.tick;
      ghost var target := Kept(clock.at, first, autoKeys);
      assert autoKeys[0..] == autoKeys && [] + target == target;
      for i := 0 to |autoKeys|
        invariant clock.tick == first + i && young + Kept(clock.at, first + i, autoKeys[i..]) == target
      {
        var t := clock.Now();
        ghost var rest := Kept(clock.at, first + i + 1, autoKeys[i + 1..]);
        assert autoKeys[i..][1..] == autoKeys[i + 1..];
        if t - autoKeys[i].created < LIFETIME {
          assert (young + [autoKeys[i]]) + rest == young + ([autoKeys[i]] + rest);
          young := young + [autoKeys[i]];
        } else {
          assert [] + rest == rest;
        }
      }
      assert young + [] == young;
    }
  }

  lemma Later(clock: nat -> int, keys: seq<Key>, t: nat, u: nat)
    requires Monotone(clock) && Ordered(clock, Store(keys, t)) && t <= u
    ensures Ordered(clock, Store(keys, u)) && clock(t) <= clock(u)
  {
  }
}
