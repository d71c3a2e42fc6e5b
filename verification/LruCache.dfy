/** lruSessionCache: a map and a list of shared elements, against a plain recency list. */
module LruCache {
  import opened Wire

  const DEFAULT_CAPACITY := 64

  // ---- The recency list ----

  /** A cached pair; a nil state is None. */
  datatype Pair<S> = Pair(key: string, state: Option<S>)

  predicate DistinctKeys<S>(l: seq<Pair<S>>)
  {
    forall i, j | 0 <= i < j < |l| :: l[i].key != l[j].key
  }

  predicate Has<S>(l: seq<Pair<S>>, k: string) { exists i :: 0 <= i < |l| && l[i].key == k }

  lemma HasLater<S>(l: seq<Pair<S>>, k: string)
    requires l != [] && l[0].key != k
    ensures Has(l[1..], k) <==> Has(l, k)
  {
    if Has(l[1..], k) {
      var i :| 0 <= i < |l[1..]| && l[1..][i].key == k;
      assert l[i + 1].key == k;
    }
    if Has(l, k) {
      var i :| 0 <= i < |l| && l[i].key == k;
      assert l[1..][i - 1].key == k;
    }
  }

  function Remove<S>(l: seq<Pair<S>>, k: string): (r: seq<Pair<S>>)
  {
    if l == [] then [] else if l[0].key == k then l[1..] else [l[0]] + Remove(l[1..], k)
  }

  function Find<S>(l: seq<Pair<S>>, k: string): (r: Option<Pair<S>>)
    ensures r.Some? <==> Has(l, k)
    ensures r.Some? ==> r.value in l && r.value.key == k
  {
    if l == [] then None
    else if l[0].key == k then Some(l[0])
    else HasLater(l, k); Find(l[1..], k)
  }

  function PutList<S>(l: seq<Pair<S>>, capacity: nat, k: string, cs: Option<S>): (r: seq<Pair<S>>)
    requires capacity >= 1
  {
    if Find(l, k).Some? then
      if cs.None? then Remove(l, k) else [Pair(k, cs)] + Remove(l, k)
    else if |l| < capacity then [Pair(k, cs)] + l
    else [Pair(k, cs)] + l[..|l| - 1]
  }

  function GetList<S>(l: seq<Pair<S>>, k: string): (r: (seq<Pair<S>>, Option<Pair<S>>))
  {
    var found := Find(l, k);
    (if found.Some? then [found.value] + Remove(l, k) else l, found)
  }

  lemma HasCons<S>(p: Pair<S>, l: seq<Pair<S>>, k: string)
    ensures Has([p] + l, k) <==> p.key == k || Has(l, k)
  {
    var m := [p] + l;
    assert m[0] == p;
    if Has(l, k) {
      var i :| 0 <= i < |l| && l[i].key == k;
      assert m[i + 1].key == k;
    }
    if Has(m, k) && p.key != k {
      var i :| 0 <= i < |m| && m[i].key == k;
      assert l[i - 1].key == k;
    }
  }

  lemma DistinctCons<S>(p: Pair<S>, l: seq<Pair<S>>)
    ensures DistinctKeys([p] + l) <==> DistinctKeys(l) && !Has(l, p.key)
  {
    var m := [p] + l;
    if DistinctKeys(m) {
      forall i, j | 0 <= i < j < |l| ensures l[i].key != l[j].key { assert m[i + 1].key != m[j + 1].key; }
      forall i | 0 <= i < |l| ensures l[i].key != p.key { assert m[0].key != m[i + 1].key; }
    }
    if DistinctKeys(l) && !Has(l, p.key) {
      forall i, j | 0 <= i < j < |m| ensures m[i].key != m[j].key {
        assert m[j] == l[j - 1];
        if i > 0 { assert m[i] == l[i - 1]; }
      }
    }
  }

  /** Removing a key leaves distinct keys, without it, all from before. */
  lemma {:induction false} RemoveMeans<S>(l: seq<Pair<S>>, k: string)
    requires DistinctKeys(l)
    ensures DistinctKeys(Remove(l, k)) && !Has(Remove(l, k), k)
    ensures forall x :: Has(Remove(l, k), x) ==> Has(l, x)
    ensures |Remove(l, k)| == if Has(l, k) then |l| - 1 else |l|
  {
    hide Has, DistinctKeys;
    if l == [] {
      NoneHas<S>(k);
    } else {
      var p, t := l[0], l[1..];
      assert l == [p] + t;
      DistinctCons(p, t);
      forall x { HasCons(p, t, x); }
      if p.key != k {
        RemoveMeans(t, k);
        var r := Remove(t, k);
        DistinctCons(p, r);
        forall x { HasCons(p, r, x); }
      }
    }
  }

  lemma NoneHas<S>(k: string)
    ensures !Has<S>([], k) && DistinctKeys<S>([])
  {
  }

  lemma DropLast<S>(l: seq<Pair<S>>)
    requires DistinctKeys(l) && l != []
    ensures DistinctKeys(l[..|l| - 1]) && forall x :: Has(l[..|l| - 1], x) ==> Has(l, x)
  {
    forall x | Has(l[..|l| - 1], x) ensures Has(l, x) {
      var i :| 0 <= i < |l| - 1 && l[..|l| - 1][i].key == x;
      assert l[i].key == x;
    }
  }

  /** Put and Get keep the keys distinct and the list within its capacity. */
  lemma OperationsKeep<S>(l: seq<Pair<S>>, capacity: nat, k: string, cs: Option<S>)
    requires capacity >= 1 && DistinctKeys(l) && |l| <= capacity
    ensures DistinctKeys(PutList(l, capacity, k, cs)) && |PutList(l, capacity, k, cs)| <= capacity
    ensures DistinctKeys(GetList(l, k).0) && |GetList(l, k).0| == |l|
  {
    hide Has, DistinctKeys, Remove;
    RemoveMeans(l, k);
    DistinctCons(Pair(k, cs), Remove(l, k));
    if Find(l, k).Some? {
      DistinctCons(Find(l, k).value, Remove(l, k));
    } else if |l| < capacity {
      DistinctCons(Pair(k, cs), l);
    } else {
      DropLast(l);
      DistinctCons(Pair(k, cs), l[..|l| - 1]);
    }
  }

  /** A nil Put does what its documentation says, remove the entry and nothing else, exactly when the key
      is there; otherwise it inserts a nil entry. */
  lemma NilPutExactly<S>(l: seq<Pair<S>>, capacity: nat, k: string)
    requires capacity >= 1 && DistinctKeys(l) && |l| <= capacity
    ensures PutList(l, capacity, k, None) == Remove(l, k) <==> Find(l, k).Some?
    ensures Find(l, k).None? ==>
            PutList(l, capacity, k, None) != [] && PutList(l, capacity, k, None)[0] == Pair(k, None)
  {
    hide Has, DistinctKeys, Remove;
    RemoveMeans(l, k);
    if Find(l, k).None? { HasCons(Pair(k, None), if |l| < capacity then l else l[..|l| - 1], k); }
  }

  // ---- How long an entry lasts ----

  datatype Op<S> = Put(key: string, cs: Option<S>) | Get(key: string)

  function Step<S>(l: seq<Pair<S>>, capacity: nat, op: Op<S>): (r: seq<Pair<S>>)
    requires capacity >= 1
  {
    match op case Put(k, cs) => PutList(l, capacity, k, cs) case Get(k) => GetList(l, k).0
  }

  function Run<S>(l: seq<Pair<S>>, capacity: nat, ops: seq<Op<S>>): (r: seq<Pair<S>>)
    requires capacity >= 1
  {
    if ops == [] then l else Step(Run(l, capacity, ops[..|ops| - 1]), capacity, ops[|ops| - 1])
  }

  function Touched<S>(ops: seq<Op<S>>): (r: set<string>) { set i | 0 <= i < |ops| :: ops[i].key }

  /** The pair stands at position i, and everything before it has been used since. */
  ghost predicate Holds<S>(l: seq<Pair<S>>, p: Pair<S>, since: set<string>)
  {
    exists i :: 0 <= i < |l| && l[i] == p && forall j | 0 <= j < i :: l[j].key in since
  }

  lemma KeysBound<S>(l: seq<Pair<S>>, n: nat, since: set<string>)
    requires DistinctKeys(l) && n <= |l| && forall j | 0 <= j < n :: l[j].key in since
    ensures n <= |since|
  {
    if n > 0 {
      KeysBound(l, n - 1, since - {l[n - 1].key});
    }
  }

  lemma {:induction false} RemoveKeepsHolds<S>(l: seq<Pair<S>>, p: Pair<S>, k: string, since: set<string>)
    requires Holds(l, p, since) && p.key != k
    ensures Holds(Remove(l, k), p, since)
  {
    var i :| 0 <= i < |l| && l[i] == p && forall j | 0 <= j < i :: l[j].key in since;
    var r := Remove(l, k);
    if l[0].key == k {
      assert r[i - 1] == p && forall j | 0 <= j < i - 1 :: r[j] == l[j + 1];
    } else if i == 0 {
      assert r[0] == p;
    } else {
      assert l[1..][i - 1] == p && forall j | 0 <= j < i - 1 :: l[1..][j] == l[j + 1];
      assert Holds(l[1..], p, since);
      RemoveKeepsHolds(l[1..], p, k, since);
      ConsHolds(l[0], Remove(l[1..], k), p, since);
    }
  }

  lemma ConsHolds<S>(q: Pair<S>, l: seq<Pair<S>>, p: Pair<S>, since: set<string>)
    requires Holds(l, p, since) && q.key in since
    ensures Holds([q] + l, p, since)
  {
    var i :| 0 <= i < |l| && l[i] == p && forall j | 0 <= j < i :: l[j].key in since;
    var m := [q] + l;
    assert m[i + 1] == p;
    forall j | 0 <= j < i + 1 ensures m[j].key in since {
      if j > 0 { assert m[j] == l[j - 1]; }
    }
  }

  lemma MoreHolds<S>(l: seq<Pair<S>>, p: Pair<S>, since: set<string>, k: string)
    requires Holds(l, p, since)
    ensures Holds(l, p, since + {k})
  {
    var i :| 0 <= i < |l| && l[i] == p && forall j | 0 <= j < i :: l[j].key in since;
  }

  lemma StepKeepsHolds<S>(l: seq<Pair<S>>, capacity: nat, op: Op<S>, p: Pair<S>, since: set<string>)
    requires capacity >= 1 && DistinctKeys(l) && |l| <= capacity && Holds(l, p, since) && op.key != p.key
    requires |since + {op.key}| < capacity
    ensures Holds(Step(l, capacity, op), p, since + {op.key})
  {
    hide Has, Remove, DistinctKeys;
    var more := since + {op.key};
    MoreHolds(l, p, since, op.key);
    RemoveKeepsHolds(l, p, op.key, more);
    var found := Find(l, op.key);
    if found.Some? {
      if op.Put? { ConsHolds(Pair(op.key, op.cs), Remove(l, op.key), p, more); }
      else { ConsHolds(found.value, Remove(l, op.key), p, more); }
    } else if op.Put? {
      if |l| < capacity {
        ConsHolds(Pair(op.key, op.cs), l, p, more);
      } else {
        NewKeyRoom(l, p, since, op.key, capacity);
        MoreHolds(l[..|l| - 1], p, since, op.key);
        ConsHolds(Pair(op.key, op.cs), l[..|l| - 1], p, more);
      }
    }
  }

  /** A key not in a full list: the pair is not the last entry. */
  lemma NewKeyRoom<S>(l: seq<Pair<S>>, p: Pair<S>, since: set<string>, k: string, capacity: nat)
    requires DistinctKeys(l) && Holds(l, p, since) && Find(l, k).None? && |l| == capacity && |since + {k}| < capacity
    ensures Holds(l[..|l| - 1], p, since)
  {
    var i :| 0 <= i < |l| && l[i] == p && forall j | 0 <= j < i :: l[j].key in since;
    forall j | 0 <= j < i ensures l[j].key in since - {k} {
      assert l[j].key != k;
    }
    KeysBound(l, i, since - {k});
    assert |since - {k}| < |since + {k}| by { SetOneMore(since, k); }
    assert l[..|l| - 1][i] == p;
  }

  lemma SetOneMore(s: set<string>, k: string)
    ensures |s - {k}| + 1 == |s + {k}|
  {
    assert s + {k} == (s - {k}) + {k};
  }

  /** An entry survives every run that does not name its key and uses fewer other keys than there are
      places. */
  lemma {:induction false} Survives<S>(l: seq<Pair<S>>, capacity: nat, p: Pair<S>, ops: seq<Op<S>>)
    requires capacity >= 1 && DistinctKeys(l) && |l| <= capacity && |l| > 0 && l[0] == p
    requires p.key !in Touched(ops) && |Touched(ops)| < capacity
    ensures Holds(Run(l, capacity, ops), p, Touched(ops)) && Find(Run(l, capacity, ops), p.key) == Some(p)
    ensures DistinctKeys(Run(l, capacity, ops)) && |Run(l, capacity, ops)| <= capacity
  {
    hide Has, Remove, Find;
    if ops != [] {
      var front, op := ops[..|ops| - 1], ops[|ops| - 1];
      assert ops == front + [op];
      assert Touched(ops) == Touched(front) + {op.key};
      SetSmaller(Touched(front), Touched(ops));
      Survives(l, capacity, p, front);
      var m := Run(l, capacity, front);
      OperationsKeep(m, capacity, op.key, if op.Put? then op.cs else None);
      StepKeepsHolds(m, capacity, op, p, Touched(front));
    }
    HeldIsFound(Run(l, capacity, ops), p, Touched(ops));
  }

  /** Whatever came before: an entry that was just found, or just put, is found again after every run that does not
      name its key and uses fewer other keys than there are places. */
  lemma UseRenews<S>(l: seq<Pair<S>>, capacity: nat, op: Op<S>, p: Pair<S>, ops: seq<Op<S>>)
    requires capacity >= 1 && DistinctKeys(l) && |l| <= capacity && op.key == p.key
    requires if op.Get? then Find(l, p.key) == Some(p) else op.cs == p.state && p.state.Some?
    requires p.key !in Touched(ops) && |Touched(ops)| < capacity
    ensures Find(Run(Step(l, capacity, op), capacity, ops), p.key) == Some(p)
  {
    hide Has, Remove, Find, DistinctKeys, Run;
    OperationsKeep(l, capacity, op.key, if op.Put? then op.cs else None);
    Survives(Step(l, capacity, op), capacity, p, ops);
  }

  lemma SetSmaller(a: set<string>, b: set<string>)
    requires a <= b
    ensures |a| <= |b|
  {
    if a != {} {
      var x :| x in a;
      SetSmaller(a - {x}, b - {x});
    }
  }

  lemma {:induction false} HeldIsFound<S>(l: seq<Pair<S>>, p: Pair<S>, since: set<string>)
    requires DistinctKeys(l) && Holds(l, p, since)
    ensures Find(l, p.key) == Some(p)
  {
    var i :| 0 <= i < |l| && l[i] == p && forall j | 0 <= j < i :: l[j].key in since;
    if l[0].key == p.key {
      assert i == 0;
    } else {
      assert l[1..][i - 1] == p && forall j | 0 <= j < i - 1 :: l[1..][j] == l[j + 1];
      HeldIsFound(l[1..], p, since);
    }
  }

  // ---- The object ----

  /** A list element with its lruSessionCacheEntry; the map and the list share it. */
  class Element<S(0)> {
    var key: string
    var state: Option<S>

    constructor (key: string, state: Option<S>)
      ensures this.key == key && this.state == state
    {
      this.key, this.state := key, state;
    }
  }

  /** The list without the element at position i, and with it in front. */
  function Moved<E>(q: seq<E>, i: nat): (r: seq<E>)
    requires i < |q|
    ensures |r| == |q|
  {
    [q[i]] + q[..i] + q[i + 1..]
  }

  ghost predicate NoDup<E>(q: seq<E>)
  {
    forall i, j | 0 <= i < j < |q| :: q[i] != q[j]
  }

  class Cache<S(0)> {
    var m: map<string, Element<S>>
    var q: seq<Element<S>>          // front first
    const capacity: nat

    constructor (capacity: int)
      ensures Valid() && Abs() == [] && this.capacity == if capacity < 1 then 64 else capacity
    {
      m, q := map[], [];
      this.capacity := if capacity < 1 then DEFAULT_CAPACITY else capacity;
    }

    ghost predicate Shape()
      reads this
    {
      && capacity >= 1 && |q| <= capacity
      && NoDup(q)
      && (forall k | k in m :: m[k] in q)
    }

    /** Map and list hold the same elements, each under its own key. */
    ghost predicate Valid()
      reads this, q
    {
      && Shape()
      && (forall k | k in m :: m[k].key == k)
      && (forall i | 0 <= i < |q| :: q[i].key in m && m[q[i].key] == q[i])
    }

    /** The recency list this stands for. */
    ghost function Abs(): (r: seq<Pair<S>>)
      reads this, q
      ensures |r| == |q| && forall i | 0 <= i < |r| :: r[i] == Pair(q[i].key, q[i].state)
    {
      seq(|q|, i requires 0 <= i < |q| reads this, q => Pair(q[i].key, q[i].state))
    }

    /** The position the list library would find by following the element's links. */
    ghost function IndexOf(e: Element<S>): (i: nat)
      requires e in q
      reads this
      ensures i < |q| && q[i] == e
    {
      var i :| 0 <= i < |q| && q[i] == e;
      i
    }

    lemma ValidKeys()
      requires Valid()
      ensures DistinctKeys(Abs()) && forall k :: k in m <==> Has(Abs(), k)
    {
      forall i, j | 0 <= i < j < |q| ensures q[i].key != q[j].key {
        assert m[q[i].key] == q[i] && m[q[j].key] == q[j];
      }
      forall k | k in m ensures Has(Abs(), k) {
        var i := IndexOf(m[k]);
        assert Abs()[i].key == k;
      }
    }

    lemma FoundAt(k: string, i: nat)
      requires Valid() && k in m && i < |q| && q[i] == m[k]
      ensures Find(Abs(), k) == Some(Pair(k, m[k].state)) && Remove(Abs(), k) == Abs()[..i] + Abs()[i + 1..]
    {
      ValidKeys();
      AtPosition(Abs(), k, i);
    }

    method Position(e: Element<S>) returns (i: nat)
      requires e in q
      ensures i < |q| && q[i] == e
    {
      i := 0;
      while q[i] != e
        invariant i < |q| && e !in q[..i]
        decreases |q| - i
      {
        assert q[..i + 1] == q[..i] + [q[i]];
        assert q == q[..i + 1] + q[i + 1..];
        i := i + 1;
      }
    }

    /** q.MoveToFront on the element at position i, with its state set. */
    method MoveAt(i: nat, state: Option<S>)
      requires Valid() && i < |q|
      modifies this`q, q
      ensures Valid() && m == old(m)
      ensures Abs() == [Pair(old(Abs())[i].key, state)] + (old(Abs())[..i] + old(Abs())[i + 1..])
    {
      hide Moved, NoDup;
      ghost var before, l := q, Abs();
      q[i].state := state;
      q := Moved(q, i);
      MovedElements(before, i);
      forall j | 0 < j < |q| ensures Abs()[j] == l[if j <= i then j - 1 else j] {
        assert q[j] == before[if j <= i then j - 1 else j] && q[j] != before[i];
      }
      MovedPairs(l, i, Pair(l[i].key, state), Abs());
    }

    method MoveToFront(k: string, state: Option<S>)
      requires Valid() && k in m
      modifies this`q, q
      ensures Valid() && m == old(m)
      ensures Abs() == [Pair(k, state)] + Remove(old(Abs()), k)
    {
      hide Has, DistinctKeys, Remove, Find;
      var i := Position(m[k]);
      FoundAt(k, i);
      MoveAt(i, state);
    }

    method Get(k: string) returns (state: Option<S>, ok: bool)
      requires Valid()
      modifies this`q, q
      ensures Valid() && Abs() == GetList(old(Abs()), k).0
      ensures ok == GetList(old(Abs()), k).1.Some?
      ensures state == if ok then GetList(old(Abs()), k).1.value.state else None
    {
      hide Has, Remove, DistinctKeys;
      ValidKeys();
      if k in m {
        FoundAt(k, IndexOf(m[k]));
        state, ok := m[k].state, true;
        MoveToFront(k, state);
      } else {
        state, ok := None, false;
      }
    }

    /** q.Remove on the element at position i, and delete from the map. */
    method DeleteAt(i: nat)
      requires Valid() && i < |q|
      modifies this
      ensures Valid() && Abs() == old(Abs())[..i] + old(Abs())[i + 1..]
    {
      hide Without, NoDup;
      ghost var before, l, gone := q, Abs(), q[i];
      assert forall k | k in m && k != gone.key :: m[k] != gone;
      m := m - {q[i].key};
      q := Without(q, i);
      WithoutElement(before, i);
      forall j | 0 <= j < |q| ensures Abs()[j] == l[if j < i then j else j + 1] && q[j].key != gone.key {
        assert q[j] == before[if j < i then j else j + 1];
      }
      WithoutPairs(l, i, Abs());
    }

    method Delete(k: string)
      requires Valid() && k in m
      modifies this
      ensures Valid() && Abs() == Remove(old(Abs()), k)
    {
      hide Has, DistinctKeys, Remove, Find;
      var i := Position(m[k]);
      FoundAt(k, i);
      DeleteAt(i);
    }

    method PushNew(k: string, cs: Option<S>)
      requires Valid() && k !in m && |q| < capacity
      modifies this
      ensures Valid() && Abs() == [Pair(k, cs)] + old(Abs())
    {
      hide NoDup;
      ghost var before, l := q, Abs();
      var e := new Element(k, cs);
      m := m[k := e];
      q := [e] + q;
      PushedElements(before, e);
      assert Abs() == [Pair(k, cs)] + l;
    }

    /** The least recently used element gets the new key and state. */
    method Recycle(k: string, cs: Option<S>)
      requires Valid() && k !in m && |q| == capacity
      modifies this, q
      ensures Valid() && Abs() == [Pair(k, cs)] + old(Abs())[..old(|q|) - 1]
    {
      hide NoDup, Moved;
      var last := |q| - 1;
      var e := q[last];
      ghost var before, l, m0 := q, Abs(), m;
      m := m - {e.key};
      e.key, e.state := k, cs;
      q := Moved(q, last);
      m := m[k := e];
      MovedElements(before, last);
      forall j | 0 < j < |q| ensures Abs()[j] == l[j - 1] {
        assert q[j] == before[j - 1] && q[j] != e;
      }
      assert Abs() == [Pair(k, cs)] + l[..last];
    }

    /** Put. */
    method Put(k: string, cs: Option<S>)
      requires Valid()
      modifies this, q
      ensures Valid() && Abs() == PutList(old(Abs()), capacity, k, cs)
    {
      hide Has, Remove, DistinctKeys;
      ValidKeys();
      if k in m {
        if cs.None? { Delete(k); } else { MoveToFront(k, cs); }
      } else if |q| < capacity {
        PushNew(k, cs);
      } else {
        Recycle(k, cs);
      }
    }
  }

  lemma MovedPairs<P>(l: seq<P>, i: nat, p: P, r: seq<P>)
    requires i < |l| == |r| && r[0] == p && forall j | 0 < j < |r| :: r[j] == l[if j <= i then j - 1 else j]
    ensures r == [p] + (l[..i] + l[i + 1..])
  {
  }

  function Without<E>(q: seq<E>, i: nat): (r: seq<E>)
    requires i < |q|
    ensures |r| == |q| - 1
  {
    q[..i] + q[i + 1..]
  }

  lemma WithoutPairs<P>(l: seq<P>, i: nat, r: seq<P>)
    requires i < |l| == |r| + 1 && forall j | 0 <= j < |r| :: r[j] == l[if j < i then j else j + 1]
    ensures r == l[..i] + l[i + 1..]
  {
  }

  lemma WithoutElement<E>(q: seq<E>, i: nat)
    requires i < |q| && NoDup(q)
    ensures var r := Without(q, i);
      && NoDup(r) && (forall e :: e in r <==> e in q && e != q[i])
      && forall j | 0 <= j < |r| :: r[j] == q[if j < i then j else j + 1]
  {
    var r := q[..i] + q[i + 1..];
    forall j | 0 <= j < |r| ensures r[j] == q[if j < i then j else j + 1] {}
    forall e | e in q && e != q[i] ensures e in r {
      var j :| 0 <= j < |q| && q[j] == e;
      assert r[if j < i then j else j - 1] == e;
    }
    forall e | e in r ensures e in q && e != q[i] {
      var j :| 0 <= j < |r| && r[j] == e;
    }
  }

  lemma PushedElements<E>(q: seq<E>, e: E)
    requires NoDup(q) && e !in q
    ensures NoDup([e] + q) && forall j | 0 < j < |[e] + q| :: ([e] + q)[j] == q[j - 1]
  {
    var r := [e] + q;
    forall a, b | 0 <= a < b < |r| ensures r[a] != r[b] {
      assert r[b] == q[b - 1];
      if a > 0 { assert r[a] == q[a - 1]; }
    }
  }

  lemma MovedElements<E>(q: seq<E>, i: nat)
    requires i < |q| && NoDup(q)
    ensures var r := Moved(q, i);
      && NoDup(r) && (forall j | 0 < j < |r| :: r[j] != r[0]) && (forall e :: e in r <==> e in q)
      && r[0] == q[i] && forall j | 0 < j < |r| :: r[j] == q[if j <= i then j - 1 else j]
  {
    var r := Moved(q, i);
    forall j | 0 < j < |r| ensures r[j] == q[if j <= i then j - 1 else j] {}
    forall e | e in q ensures e in r {
      var j :| 0 <= j < |q| && q[j] == e;
      if j == i { assert r[0] == e; } else { assert r[if j < i then j + 1 else j] == e; }
    }
    forall e | e in r ensures e in q {
      var j :| 0 <= j < |r| && r[j] == e;
    }
  }

  lemma {:induction false} AtPosition<S>(l: seq<Pair<S>>, k: string, i: nat)
    requires DistinctKeys(l) && i < |l| && l[i].key == k
    ensures Find(l, k) == Some(l[i]) && Remove(l, k) == l[..i] + l[i + 1..]
  {
    if i == 0 {
      assert l[..0] + l[1..] == l[1..];
    } else {
      assert l == [l[0]] + l[1..];
      DistinctCons(l[0], l[1..]);
      AtPosition(l[1..], k, i - 1);
      assert [l[0]] + (l[1..][..i - 1] + l[1..][i..]) == l[..i] + l[i + 1..];
    }
  }
}
