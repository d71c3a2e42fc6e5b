/** Permuting a ClientHello's extensions around the pinned ones, and splicing in the cookie of a
    HelloRetryRequest. */
module Extensions {
  import opened Wire

  datatype Kind = Grease | Padding | PreSharedKey | KeyShare | Cookie | Other

  datatype Ext = Ext(kind: Kind, id: nat)

  /** positionInvariantExtension. */
  predicate Pinned(e: Ext) { e.kind.Grease? || e.kind.Padding? || e.kind.PreSharedKey? }

  // ---- Shuffling ----

  function Movable(s: seq<Ext>): (r: seq<Ext>)
    ensures |r| <= |s| && forall i | 0 <= i < |r| :: !Pinned(r[i])
  {
    if s == [] then [] else
    var e := s[|s| - 1];
    Movable(s[..|s| - 1]) + (if Pinned(e) then [] else [e])
  }

  /** The movable slots of s filled with ms in order. */
  function Refill(s: seq<Ext>, ms: seq<Ext>): (r: seq<Ext>)
    requires |ms| == |Movable(s)|
    ensures |r| == |s|
  {
    if s == [] then [] else
    var front, e := s[..|s| - 1], s[|s| - 1];
    if Pinned(e) then Refill(front, ms) + [e] else Refill(front, ms[..|ms| - 1]) + [ms[|ms| - 1]]
  }

  lemma {:induction false} RefillSame(s: seq<Ext>)
    ensures Refill(s, Movable(s)) == s
  {
    if s != [] {
      var front, e := s[..|s| - 1], s[|s| - 1];
      RefillSame(front);
      assert Movable(s)[..|Movable(front)|] == Movable(front) && Movable(front) + [] == Movable(front);
      assert s == front + [e];
    }
  }

  /** Every pinned slot keeps its extension; movable slots hold movable extensions. */
  lemma {:induction false} RefillKeepsPinned(s: seq<Ext>, ms: seq<Ext>, i: nat)
    requires |ms| == |Movable(s)| && i < |s| && forall k | 0 <= k < |ms| :: !Pinned(ms[k])
    ensures if Pinned(s[i]) then Refill(s, ms)[i] == s[i] else !Pinned(Refill(s, ms)[i])
  {
    var front, e := s[..|s| - 1], s[|s| - 1];
    if i < |s| - 1 {
      RefillKeepsPinned(front, if Pinned(e) then ms else ms[..|ms| - 1], i);
      assert s[i] == front[i];
    }
  }

  /** Reading the movable extensions back gives the ones put in. */
  lemma {:induction false} MovableOfRefill(s: seq<Ext>, ms: seq<Ext>)
    requires |ms| == |Movable(s)| && forall k | 0 <= k < |ms| :: !Pinned(ms[k])
    ensures Movable(Refill(s, ms)) == ms
  {
    if s != [] {
      var front, e := s[..|s| - 1], s[|s| - 1];
      var ms' := if Pinned(e) then ms else ms[..|ms| - 1];
      MovableOfRefill(front, ms');
      var r := Refill(s, ms);
      assert r[..|r| - 1] == Refill(front, ms');
      if !Pinned(e) { assert ms == ms' + [ms[|ms| - 1]]; }
    }
  }

  function Count(s: seq<Ext>, x: Ext): (r: nat) { multiset(s)[x] }

  lemma CountNext(s: seq<Ext>, e: Ext, x: Ext)
    ensures Count(s + [e], x) == Count(s, x) + (if e == x then 1 else 0)
  {
    assert multiset(s + [e]) == multiset(s) + multiset{e};
  }

  /** Refilling trades the movable extensions for the new ones. */
  lemma {:induction false} RefillCount(s: seq<Ext>, ms: seq<Ext>, x: Ext)
    requires |ms| == |Movable(s)|
    ensures Count(Refill(s, ms), x) + Count(Movable(s), x) == Count(s, x) + Count(ms, x)
  {
    hide Count;
    if s != [] {
      var front, e := s[..|s| - 1], s[|s| - 1];
      assert s == front + [e];
      CountNext(front, e, x);
      if Pinned(e) {
        RefillCount(front, ms, x);
        assert Movable(s) == Movable(front) + [] == Movable(front);
        CountNext(Refill(front, ms), e, x);
      } else {
        var ms', last := ms[..|ms| - 1], ms[|ms| - 1];
        RefillCount(front, ms', x);
        assert ms == ms' + [last];
        CountNext(ms', last, x);
        CountNext(Movable(front), e, x);
        CountNext(Refill(front, ms'), last, x);
      }
    } else {
      assert Refill(s, ms) == s && Movable(s) == ms;
    }
  }

  /** The callback given to the shuffler, for the pairs it is called with. */
  function Swapped(ms: seq<Ext>, swaps: seq<(nat, nat)>): (r: seq<Ext>)
    requires forall k | 0 <= k < |swaps| :: swaps[k].0 < |ms| && swaps[k].1 < |ms|
    ensures |r| == |ms|
  {
    if swaps == [] then ms else
    var before := Swapped(ms, swaps[..|swaps| - 1]);
    var (i, j) := swaps[|swaps| - 1];
    before[i := before[j]][j := before[i]]
  }

  lemma {:induction false} SwappedPermutes(ms: seq<Ext>, swaps: seq<(nat, nat)>)
    requires forall k | 0 <= k < |swaps| :: swaps[k].0 < |ms| && swaps[k].1 < |ms|
    ensures multiset(Swapped(ms, swaps)) == multiset(ms)
  {
    if swaps != [] {
      SwappedPermutes(ms, swaps[..|swaps| - 1]);
      var (i, j) := swaps[|swaps| - 1];
      SwapPermutes(Swapped(ms, swaps[..|swaps| - 1]), i, j);
    }
  }

  lemma SwapPermutes(s: seq<Ext>, i: nat, j: nat)
    requires i < |s| && j < |s|
    ensures multiset(s[i := s[j]][j := s[i]]) == multiset(s)
  {
  }

  lemma {:induction false} SwappedMovable(ms: seq<Ext>, swaps: seq<(nat, nat)>)
    requires forall k | 0 <= k < |swaps| :: swaps[k].0 < |ms| && swaps[k].1 < |ms|
    requires forall k | 0 <= k < |ms| :: !Pinned(ms[k])
    ensures forall k | 0 <= k < |ms| :: !Pinned(Swapped(ms, swaps)[k])
  {
    if swaps != [] { SwappedMovable(ms, swaps[..|swaps| - 1]); }
  }

  function Shuffled(s: seq<Ext>, swaps: seq<(nat, nat)>): (r: seq<Ext>)
    requires forall k | 0 <= k < |swaps| :: swaps[k].0 < |Movable(s)| && swaps[k].1 < |Movable(s)|
  {
    Refill(s, Swapped(Movable(s), swaps))
  }

  /** For every sequence of swaps the result is a permutation in which every pinned extension is where it
      was, and every other slot holds an extension that may move. */
  lemma ShuffleIsPinnedPermutation(s: seq<Ext>, swaps: seq<(nat, nat)>)
    requires forall k | 0 <= k < |swaps| :: swaps[k].0 < |Movable(s)| && swaps[k].1 < |Movable(s)|
    ensures multiset(Shuffled(s, swaps)) == multiset(s) && |Shuffled(s, swaps)| == |s|
    ensures forall i | 0 <= i < |s| ::
              if s[i].kind in {Grease, Padding, PreSharedKey} then Shuffled(s, swaps)[i] == s[i]
              else Shuffled(s, swaps)[i].kind in {KeyShare, Cookie, Other}
  {
    hide Refill, Movable, Swapped;
    var ms := Swapped(Movable(s), swaps);
    SwappedPermutes(Movable(s), swaps);
    SwappedMovable(Movable(s), swaps);
    forall x ensures multiset(Shuffled(s, swaps))[x] == multiset(s)[x] { RefillCount(s, ms, x); }
    forall i | 0 <= i < |s|
      ensures if Pinned(s[i]) then Shuffled(s, swaps)[i] == s[i] else !Pinned(Shuffled(s, swaps)[i])
    {
      RefillKeepsPinned(s, ms, i);
    }
  }

  /** The indices of the movable extensions. */
  function Slots(s: seq<Ext>): (r: seq<nat>)
    ensures |r| == |Movable(s)| && (forall k | 0 <= k < |r| :: r[k] < |s| && s[r[k]] == Movable(s)[k])
  {
    if s == [] then [] else
    var e := s[|s| - 1];
    Slots(s[..|s| - 1]) + (if Pinned(e) then [] else [|s| - 1])
  }

  lemma {:induction false} SlotsIncrease(s: seq<Ext>)
    ensures forall a, b | 0 <= a < b < |Slots(s)| :: Slots(s)[a] < Slots(s)[b]
  {
    if s != [] { SlotsIncrease(s[..|s| - 1]); }
  }

  /** Writing ms into the slots one by one fills them. */
  lemma {:induction false} FilledIsRefill(s: seq<Ext>, ms: seq<Ext>, r: seq<Ext>)
    requires |ms| == |Movable(s)| && |r| == |s|
    requires forall k | 0 <= k < |ms| :: r[Slots(s)[k]] == ms[k]
    requires forall i | 0 <= i < |s| && Pinned(s[i]) :: r[i] == s[i]
    ensures r == Refill(s, ms)
  {
    hide Slots, Movable;
    if s != [] {
      var front, e := s[..|s| - 1], s[|s| - 1];
      SlotsSplit(s);
      var ms', r' := if Pinned(e) then ms else ms[..|ms| - 1], r[..|s| - 1];
      forall k | 0 <= k < |ms'| ensures r'[Slots(front)[k]] == ms'[k] { assert Slots(s)[k] == Slots(front)[k]; }
      FilledIsRefill(front, ms', r');
      if !Pinned(e) { assert Slots(s)[|ms| - 1] == |s| - 1; }
      assert r == r' + [r[|s| - 1]];
    }
  }

  lemma SlotsSplit(s: seq<Ext>)
    requires s != []
    ensures var front, e := s[..|s| - 1], s[|s| - 1];
      && Slots(s) == (if Pinned(e) then Slots(front) else Slots(front) + [|s| - 1])
      && |Movable(s)| == |Movable(front)| + (if Pinned(e) then 0 else 1)
  {
  }

  /** shufflePermutable, in place. swaps are the calls the shuffler makes for that many extensions. */
  method ShufflePermutable(exts: array<Ext>, swaps: seq<(nat, nat)>)
    requires forall k | 0 <= k < |swaps| :: swaps[k].0 < |Movable(exts[..])| && swaps[k].1 < |Movable(exts[..])|
    modifies exts
    ensures exts[..] == Shuffled(old(exts[..]), swaps)
  {
    hide Slots, Movable, Swapped, Refill;
    ghost var s := exts[..];
    var idx := MovableIndices(exts);
    if |idx| < 2 {
      AtMostOne(Movable(s), swaps);
      RefillSame(s);
      return;
    }
    var movable := new Ext[|idx|];
    for k := 0 to |idx|
      invariant exts[..] == s && forall a | 0 <= a < k :: movable[a] == Movable(s)[a]
    {
      movable[k] := exts[idx[k]];
    }
    assert movable[..] == Movable(s);
    ApplySwaps(movable, swaps);
    SlotsIncrease(s);
    for k := 0 to |idx|
      invariant movable[..] == Swapped(Movable(s), swaps)
      invariant forall a | 0 <= a < k :: exts[idx[a]] == movable[a]
      invariant forall i | 0 <= i < exts.Length && Pinned(s[i]) :: exts[i] == s[i]
    {
      exts[idx[k]] := movable[k];
    }
    FilledIsRefill(s, movable[..], exts[..]);
  }

  lemma {:induction false} AtMostOne(ms: seq<Ext>, swaps: seq<(nat, nat)>)
    requires |ms| < 2 && forall k | 0 <= k < |swaps| :: swaps[k].0 < |ms| && swaps[k].1 < |ms|
    ensures Swapped(ms, swaps) == ms
  {
    if swaps != [] { AtMostOne(ms, swaps[..|swaps| - 1]); }
  }

  method MovableIndices(exts: array<Ext>) returns (idx: seq<nat>)
    ensures idx == Slots(exts[..])
  {
    idx := [];
    for i := 0 to exts.Length
      invariant idx == Slots(exts[..i])
    {
      assert exts[..i + 1][..i] == exts[..i];
      if !Pinned(exts[i]) { idx := idx + [i]; }
    }
    assert exts[..exts.Length] == exts[..];
  }

  method ApplySwaps(movable: array<Ext>, swaps: seq<(nat, nat)>)
    requires forall k | 0 <= k < |swaps| :: swaps[k].0 < movable.Length && swaps[k].1 < movable.Length
    modifies movable
    ensures movable[..] == Swapped(old(movable[..]), swaps)
  {
    for k := 0 to |swaps|
      invariant movable[..] == Swapped(old(movable[..]), swaps[..k])
    {
      assert swaps[..k + 1][..k] == swaps[..k];
      var (i, j) := swaps[k];
      movable[i], movable[j] := movable[j], movable[i];
    }
    assert swaps[..|swaps|] == swaps;
  }

  // ---- The cookie ----

  predicate AllPinned(s: seq<Ext>) { forall i | 0 <= i < |s| :: Pinned(s[i]) }

  /** cookieSpliceRange. */
  method CookieSpliceRange(exts: seq<Ext>) returns (lo: nat, hi: nat)
    ensures (lo, hi) == SpliceRange(exts)
  {
    var first, last := -1, -1;
    for i := 0 to |exts|
      invariant first == FirstMovable(exts[..i]) && last == LastMovable(exts[..i])
    {
      assert exts[..i + 1][..i] == exts[..i];
      if !Pinned(exts[i]) {
        if first < 0 { first := i; }
        last := i;
      }
    }
    assert exts[..|exts|] == exts;
    if first < 0 {
      if |exts| == 0 { return 0, 0; }
      return 1, 1;
    }
    return first, last + 1;
  }

  /** -1 when there is none. */
  function FirstMovable(s: seq<Ext>): (r: int)
    ensures -1 <= r < |s| && (r < 0 <==> AllPinned(s))
    ensures r >= 0 ==> !Pinned(s[r]) && forall j | 0 <= j < r :: Pinned(s[j])
  {
    if s == [] then -1 else
    var front := FirstMovable(s[..|s| - 1]);
    assert forall i | 0 <= i < |s| - 1 :: s[i] == s[..|s| - 1][i];
    if front >= 0 then front else if Pinned(s[|s| - 1]) then -1 else |s| - 1
  }

  function LastMovable(s: seq<Ext>): (r: int)
    ensures -1 <= r < |s| && (r < 0 <==> AllPinned(s))
    ensures r >= 0 ==> !Pinned(s[r]) && forall j | r < j < |s| :: Pinned(s[j])
  {
    if s == [] then -1 else if !Pinned(s[|s| - 1]) then |s| - 1 else
    assert forall i | 0 <= i < |s| - 1 :: s[i] == s[..|s| - 1][i];
    LastMovable(s[..|s| - 1])
  }

  function SpliceRange(s: seq<Ext>): (r: (nat, nat))
    ensures r.0 <= r.1 <= |s|
  {
    if AllPinned(s) then (if s == [] then (0, 0) else (1, 1))
    else (FirstMovable(s), LastMovable(s) + 1)
  }

  function Spliced(s: seq<Ext>, at: nat, cookie: Ext): (r: seq<Ext>)
    requires at <= |s|
  {
    s[..at] + [cookie] + s[at..]
  }

  predicate HasKind(s: seq<Ext>, kind: Kind) { exists i :: 0 <= i < |s| && s[i].kind == kind }

  /** The cookie put into the cookie extensions that are there. */
  function WithCookie(s: seq<Ext>, cookie: Ext): (r: seq<Ext>)
    ensures |r| == |s| && forall i | 0 <= i < |s| :: r[i] == if s[i].kind == Cookie then cookie else s[i]
  {
    seq(|s|, i requires 0 <= i < |s| => if s[i].kind == Cookie then cookie else s[i])
  }

  /** The uTLS part of processHelloRetryRequest for a request with a cookie, as far as the list of extensions
      goes: without a key_share it is an error; a cookie extension that is there already takes the new
      cookie; otherwise the cookie is spliced in, at the position drawn from the range. */
  method RetryExtensions(exts: seq<Ext>, cookie: Ext, draw: nat) returns (r: Option<seq<Ext>>)
    requires cookie.kind == Cookie && draw <= SpliceRange(exts).1 - SpliceRange(exts).0
    ensures r.None? <==> !HasKind(exts, KeyShare)
    ensures r.Some? && !HasKind(exts, Cookie) ==>
            r.value == Spliced(exts, SpliceRange(exts).0 + draw, cookie) && !AllPinned(exts)
    ensures r.Some? && HasKind(exts, Cookie) ==> r.value == WithCookie(exts, cookie)
  {
    var keyShareFound := false;
    for i := 0 to |exts|
      invariant keyShareFound <==> HasKind(exts[..i], KeyShare)
    {
      HasNext(exts, i, KeyShare);
      if exts[i].kind == KeyShare { keyShareFound := true; }
    }
    assert exts[..|exts|] == exts;
    if !keyShareFound { return None; }
    var cookieFound, updated := false, exts;
    for i := 0 to |exts|
      invariant cookieFound <==> HasKind(exts[..i], Cookie)
      invariant |updated| == |exts|
      invariant forall j | 0 <= j < |exts| :: updated[j] == if j < i && exts[j].kind == Cookie then cookie else exts[j]
    {
      HasNext(exts, i, Cookie);
      if exts[i].kind == Cookie {
        updated := updated[i := cookie];
        cookieFound := true;
      }
    }
    if cookieFound { return Some(updated); }
    var lo, hi := CookieSpliceRange(exts);
    return Some(exts[..lo + draw] + ([cookie] + exts[lo + draw..]));
  }

  lemma HasNext(s: seq<Ext>, i: nat, kind: Kind)
    requires i < |s|
    ensures HasKind(s[..i + 1], kind) <==> HasKind(s[..i], kind) || s[i].kind == kind
  {
    assert s[..i + 1][i] == s[i];
    if HasKind(s[..i], kind) {
      var j :| 0 <= j < i && s[..i][j].kind == kind;
      assert s[..i + 1][j].kind == kind;
    }
    if HasKind(s[..i + 1], kind) && s[i].kind != kind {
      var j :| 0 <= j < i + 1 && s[..i + 1][j].kind == kind;
      assert s[..i][j].kind == kind;
    }
  }

  /** With something movable, as the retried key_share is: wherever in the range the cookie goes, the
      others keep their order, everything pinned before the first movable extension still leads the
      list, everything pinned after the last one still ends it, and the cookie is between. */
  lemma CookieBetweenPinnedRuns(s: seq<Ext>, at: nat, cookie: Ext)
    requires !AllPinned(s) && !Pinned(cookie) && SpliceRange(s).0 <= at <= SpliceRange(s).1
    ensures var r := Spliced(s, at, cookie); var first, last := FirstMovable(s), LastMovable(s);
      && r[at] == cookie && r[..at] + r[at + 1..] == s
      && FirstMovable(r) == first && r[..first] == s[..first]
      && LastMovable(r) == last + 1 && r[last + 2..] == s[last + 1..]
  {
    hide FirstMovable, LastMovable;
    var r := Spliced(s, at, cookie);
    var first, last := FirstMovable(s), LastMovable(s);
    SplicedAt(s, at, cookie);
    FirstIs(r, first);
    LastIs(r, last + 1);
  }

  lemma SplicedAt(s: seq<Ext>, at: nat, cookie: Ext)
    requires at <= |s|
    ensures var r := Spliced(s, at, cookie);
      && |r| == |s| + 1 && r[at] == cookie && r[..at] + r[at + 1..] == s
      && (forall i | 0 <= i < at :: r[i] == s[i]) && (forall i | at < i < |r| :: r[i] == s[i - 1])
      && (forall i: nat | i <= at :: r[..i] == s[..i]) && (forall i: nat | at <= i <= |s| :: r[i + 1..] == s[i..])
  {
  }

  lemma FirstIs(s: seq<Ext>, i: nat)
    requires i < |s| && !Pinned(s[i]) && forall j | 0 <= j < i :: Pinned(s[j])
    ensures FirstMovable(s) == i
  {
    hide FirstMovable;
    var f := FirstMovable(s);
    assert !AllPinned(s) && !Pinned(s[f]);
  }

  lemma LastIs(s: seq<Ext>, i: nat)
    requires i < |s| && !Pinned(s[i]) && forall j | i < j < |s| :: Pinned(s[j])
    ensures LastMovable(s) == i
  {
    hide LastMovable;
    var f := LastMovable(s);
    assert !AllPinned(s) && !Pinned(s[f]);
  }

  /** A shuffle does not move the ends of the movable part. */
  lemma ShuffleKeepsRange(s: seq<Ext>, swaps: seq<(nat, nat)>)
    requires forall k | 0 <= k < |swaps| :: swaps[k].0 < |Movable(s)| && swaps[k].1 < |Movable(s)|
    ensures SpliceRange(Shuffled(s, swaps)) == SpliceRange(s) && (AllPinned(Shuffled(s, swaps)) <==> AllPinned(s))
  {
    hide Refill, Movable, Swapped, Shuffled, FirstMovable, LastMovable;
    ShuffleIsPinnedPermutation(s, swaps);
    var r := Shuffled(s, swaps);
    if !AllPinned(s) {
      var first, last := FirstMovable(s), LastMovable(s);
      FirstIs(r, first);
      LastIs(r, last);
    }
  }

  /** pre_shared_key stays last after the splice exactly when it is not the only extension. */
  lemma PskStaysLastExactly(s: seq<Ext>, at: nat, cookie: Ext)
    requires s != [] && s[|s| - 1].kind.PreSharedKey? && !Pinned(cookie) && SpliceRange(s).0 <= at <= SpliceRange(s).1
    ensures var r := Spliced(s, at, cookie); r[|r| - 1] == s[|s| - 1] <==> |s| > 1
  {
    if AllPinned(s) {
      assert at == 1;
    } else {
      assert LastMovable(s) < |s| - 1;
    }
  }
}
