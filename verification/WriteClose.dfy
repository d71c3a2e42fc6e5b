/** The compare-and-swap interlock of Conn.Write and Conn.Close, for any number of concurrent calls in
    any interleaving of their atomic operations. */
module WriteClose {
  const TWO31 := 0x8000_0000
  const TWO32 := 0x1_0000_0000

  /** An int32 result. */
  function Int32(n: int): (r: int)
    ensures -TWO31 <= r < TWO31
  {
    (n + TWO31) % TWO32 - TWO31
  }

  /** Where a call stands. A writer loads activeCall, swaps in x + 2, runs, and adds -2; a closer loads,
      swaps in x | 1, and attempts closeNotify only if it saw 0 and the handshake is complete. present is
      how many writers were in flight when the closer's swap succeeded, complete whether the handshake was
      complete when it looked. */
  datatype Call =
    | WriteLoad | WriteSwap(x: int) | Writing | WriteDone | WriteRefused
    | CloseLoad | CloseSwap(x: int) | ClosePassed(x: int, present: nat)
    | CloseDone(notified: bool, present: nat, complete: bool) | CloseRefused

  datatype State = State(active: int, calls: seq<Call>, complete: bool)

  function Odd(x: int): (r: bool) { x % 2 == 1 }

  /** One atomic operation of call i. */
  function Step(s: State, i: nat): (r: State)
    requires i < |s.calls|
  {
    match s.calls[i]
    case WriteLoad => s.(calls := s.calls[i := WriteSwap(s.active)])
    case WriteSwap(x) =>
      if Odd(x) then s.(calls := s.calls[i := WriteRefused])
      else if s.active == x then s.(active := Int32(x + 2), calls := s.calls[i := Writing])
      else s.(calls := s.calls[i := WriteLoad])
    case Writing => s.(active := Int32(s.active - 2), calls := s.calls[i := WriteDone])
    case CloseLoad => s.(calls := s.calls[i := CloseSwap(s.active)])
    case CloseSwap(x) =>
      if Odd(x) then s.(calls := s.calls[i := CloseRefused])
      else if s.active == x
      then s.(active := Int32(x + 1), calls := s.calls[i := ClosePassed(x, InFlight(s.calls))])
      else s.(calls := s.calls[i := CloseLoad])
    case ClosePassed(x, n) => s.(calls := s.calls[i := CloseDone(x == 0 && s.complete, n, s.complete)])
    case _ => s
  }

  predicate Starts(c: Call) { c.WriteLoad? || c.CloseLoad? }

  function InFlight(calls: seq<Call>): (r: nat)
    ensures r <= |calls|
  {
    if calls == [] then 0 else InFlight(calls[..|calls| - 1]) + (if calls[|calls| - 1].Writing? then 1 else 0)
  }

  predicate IsPassed(c: Call) { c.ClosePassed? || c.CloseDone? }

  function Passed(calls: seq<Call>): (r: nat)
  {
    if calls == [] then 0 else Passed(calls[..|calls| - 1]) + (if IsPassed(calls[|calls| - 1]) then 1 else 0)
  }

  /** A step is an operation of one call, a new call, or the end of the handshake. */
  datatype Move = Run(i: nat) | Begin(c: Call) | Complete

  function Apply(s: State, mv: Move): (r: State)
  {
    match mv
    case Run(i) => if i < |s.calls| then Step(s, i) else s
    case Begin(c) => if Starts(c) then s.(calls := s.calls + [c]) else s
    case Complete => s.(complete := true)
  }

  function RunAll(mvs: seq<Move>): (r: State)
  {
    if mvs == [] then State(0, [], false) else Apply(RunAll(mvs[..|mvs| - 1]), mvs[|mvs| - 1])
  }

  // ---- The invariant ----

  predicate CallOk(c: Call)
  {
    match c
    case WriteSwap(x) => -TWO31 <= x < TWO31
    case CloseSwap(x) => -TWO31 <= x < TWO31
    case ClosePassed(x, n) => x == Int32(2 * n)
    case CloseDone(notified, n, complete) => notified <==> complete && Int32(2 * n) == 0
    case _ => true
  }

  /** activeCall is twice the writers in flight plus the closed bit, as an int32; at most one Close has
      passed. */
  ghost predicate Inv(s: State)
  {
    && s.active == Int32(2 * InFlight(s.calls) + Passed(s.calls)) && Passed(s.calls) <= 1
    && forall i | 0 <= i < |s.calls| :: CallOk(s.calls[i])
  }

  lemma {:induction false} CountAfter(calls: seq<Call>, i: nat, c: Call)
    requires i < |calls|
    ensures InFlight(calls[i := c]) ==
            InFlight(calls) - (if calls[i].Writing? then 1 else 0) + (if c.Writing? then 1 else 0)
    ensures Passed(calls[i := c]) ==
            Passed(calls) - (if IsPassed(calls[i]) then 1 else 0) + (if IsPassed(c) then 1 else 0)
  {
    var last := |calls| - 1;
    if i == last {
      assert calls[i := c][..last] == calls[..last];
    } else {
      CountAfter(calls[..last], i, c);
      assert calls[i := c][..last] == calls[..last][i := c];
    }
  }

  lemma Int32Same(a: int, b: int)
    requires exists q :: a == b + q * TWO32
    ensures Int32(a) == Int32(b)
  {
    var q :| a == b + q * TWO32;
    assert (a + TWO31) == (b + TWO31) + q * TWO32;
    ModShift(b + TWO31, q);
  }

  lemma ModShift(n: int, q: int)
    ensures (n + q * TWO32) % TWO32 == n % TWO32
  {
  }

  /** Adding to an int32 is adding before the wrap. */
  lemma Int32Add(n: int, d: int)
    ensures Int32(Int32(n) + d) == Int32(n + d)
  {
    var q := (n + TWO31) / TWO32;
    assert Int32(n) + d == (n + d) + (-q) * TWO32;
    Int32Same(Int32(n) + d, n + d);
  }

  lemma Int32Parity(n: int)
    ensures Odd(Int32(n)) == Odd(n)
  {
    hide Odd;
    var q := (n + TWO31) / TWO32;
    assert Int32(n) == n - q * TWO32 == n + 2 * (-q * TWO31);
    OddShift(n, -q * TWO31);
  }

  lemma OddShift(a: int, b: int)
    ensures Odd(a + 2 * b) == Odd(a)
  {
  }

  lemma OddDouble(n: nat, p: nat)
    ensures Odd(2 * n + p) == Odd(p)
  {
  }

  lemma StepKeeps(s: State, i: nat)
    requires Inv(s) && i < |s.calls|
    ensures Inv(Step(s, i))
  {
    hide Int32, Odd, InFlight, Passed;
    var n, p, c := InFlight(s.calls), Passed(s.calls), s.calls[i];
    var s' := Step(s, i);
    CountAfter(s.calls, i, s'.calls[i]);
    assert CallOk(c);
    Int32Parity(2 * n + p);
    OddDouble(n, p);
    Int32Add(2 * n + p, 2);
    Int32Add(2 * n + p, -2);
    Int32Add(2 * n + p, 1);
    OddOne();
    assert s'.calls == s.calls[i := s'.calls[i]];
  }

  lemma OddOne()
    ensures Odd(1) && !Odd(0)
  {
  }

  lemma BeginKeeps(s: State, c: Call)
    requires Inv(s) && Starts(c)
    ensures Inv(Apply(s, Begin(c)))
  {
    assert (s.calls + [c])[..|s.calls|] == s.calls;
  }

  lemma {:induction false} RunInv(mvs: seq<Move>)
    ensures Inv(RunAll(mvs))
  {
    hide Inv, Step;
    if mvs == [] {
      StartInv();
    } else {
      var s, mv := RunAll(mvs[..|mvs| - 1]), mvs[|mvs| - 1];
      RunInv(mvs[..|mvs| - 1]);
      match mv
      case Run(i) => if i < |s.calls| { StepKeeps(s, i); }
      case Begin(c) => if Starts(c) { BeginKeeps(s, c); }
      case Complete => CompleteKeeps(s);
    }
  }

  lemma CompleteKeeps(s: State)
    requires Inv(s)
    ensures Inv(Apply(s, Complete))
  {
  }

  lemma StartInv()
    ensures Inv(State(0, [], false))
  {
  }

  // ---- The promises ----

  /** In every reachable state with fewer than 2^30 calls: activeCall is exactly twice the writers in
      flight plus the closed bit. */
  lemma CounterExact(mvs: seq<Move>)
    requires |RunAll(mvs).calls| < 0x4000_0000
    ensures var s := RunAll(mvs); s.active == 2 * InFlight(s.calls) + Passed(s.calls) && Passed(s.calls) <= 1
  {
    RunInv(mvs);
  }

  lemma {:induction false} PassedCounts(calls: seq<Call>, i: nat, j: nat)
    requires i < j < |calls| && IsPassed(calls[i]) && IsPassed(calls[j])
    ensures Passed(calls) >= 2
  {
    var last := |calls| - 1;
    if j == last {
      OnePassed(calls[..last], i);
    } else {
      PassedCounts(calls[..last], i, j);
    }
  }

  lemma {:induction false} OnePassed(calls: seq<Call>, i: nat)
    requires i < |calls| && IsPassed(calls[i])
    ensures Passed(calls) >= 1
  {
    if i != |calls| - 1 { OnePassed(calls[..|calls| - 1], i); }
  }

  /** At most one Close passes the interlock, in every run. */
  lemma OneClosePasses(mvs: seq<Move>, i: nat, j: nat)
    requires i < |RunAll(mvs).calls| && j < |RunAll(mvs).calls| && IsPassed(RunAll(mvs).calls[i])
    requires IsPassed(RunAll(mvs).calls[j])
    ensures i == j
  {
    hide RunAll, InFlight, Passed, Int32;
    RunInv(mvs);
    if i < j { PassedCounts(RunAll(mvs).calls, i, j); }
    if j < i { PassedCounts(RunAll(mvs).calls, j, i); }
  }

  /** Once a Close has passed, it stays so and no Write enters. */
  lemma NoWriteAfterClose(mvs: seq<Move>, mv: Move, i: nat)
    requires Passed(RunAll(mvs).calls) >= 1 && i < |Apply(RunAll(mvs), mv).calls|
    ensures Passed(Apply(RunAll(mvs), mv).calls) >= 1
    ensures Apply(RunAll(mvs), mv).calls[i].Writing? ==> i < |RunAll(mvs).calls| && RunAll(mvs).calls[i].Writing?
  {
    hide RunAll, InFlight, Passed, Int32, Odd;
    var s := RunAll(mvs);
    RunInv(mvs);
    Int32Parity(2 * InFlight(s.calls) + Passed(s.calls));
    OddDouble(InFlight(s.calls), Passed(s.calls));
    OddOne();
    match mv
    case Run(j) =>
      if j < |s.calls| {
        CountAfter(s.calls, j, Step(s, j).calls[j]);
        assert Step(s, j).calls == s.calls[j := Step(s, j).calls[j]];
      }
    case Begin(c) => if Starts(c) { PassedBegin(s.calls, c); }
    case Complete =>
  }

  lemma PassedBegin(calls: seq<Call>, c: Call)
    requires Starts(c)
    ensures Passed(calls + [c]) == Passed(calls)
  {
    assert (calls + [c])[..|calls|] == calls;
  }

  /** A call that has been refused, or is about to be. */
  predicate TurnedAway(c: Call)
  {
    match c
    case WriteSwap(x) => Odd(x)
    case CloseSwap(x) => Odd(x)
    case WriteRefused => true
    case CloseRefused => true
    case _ => false
  }

  lemma OddIsPassed(s: State)
    requires Inv(s) && Odd(s.active)
    ensures Passed(s.calls) >= 1
  {
    hide Int32, Odd, InFlight, Passed;
    Int32Parity(2 * InFlight(s.calls) + Passed(s.calls));
    OddDouble(InFlight(s.calls), Passed(s.calls));
    OddOne();
  }

  lemma StepTurnsAway(s: State, j: nat, i: nat)
    requires j < |s.calls| && i < |s.calls| && !TurnedAway(s.calls[i]) && !Odd(s.active)
    ensures i < |Step(s, j).calls| && !TurnedAway(Step(s, j).calls[i])
  {
    hide Int32, Odd, InFlight;
  }

  /** A Write or a Close is refused only after a Close has passed, in every run. */
  lemma {:induction false} RefusedOnlyAfterClose(mvs: seq<Move>, i: nat)
    requires i < |RunAll(mvs).calls| && TurnedAway(RunAll(mvs).calls[i])
    ensures Passed(RunAll(mvs).calls) >= 1
  {
    hide Int32, Odd, InFlight, Passed, Step, TurnedAway, Inv;
    if mvs == [] {
      NoCalls();
    } else {
      var before, mv := mvs[..|mvs| - 1], mvs[|mvs| - 1];
      var s := RunAll(before);
      RunInv(before);
      if Passed(s.calls) >= 1 {
        NoWriteAfterClose(before, mv, i);
      } else if i < |s.calls| && TurnedAway(s.calls[i]) {
        RefusedOnlyAfterClose(before, i);
      } else if Odd(s.active) {
        OddIsPassed(s);
      } else {
        match mv
        case Run(j) => if j < |s.calls| { SameCalls(s, j); StepTurnsAway(s, j, i); }
        case Begin(c) => StartsNotAway(c);
        case Complete =>
      }
    }
  }

  lemma StartsNotAway(c: Call)
    ensures Starts(c) ==> !TurnedAway(c)
  {
  }

  lemma NoCalls()
    ensures RunAll([]).calls == []
  {
  }

  /** A Close attempts closeNotify exactly when it finds the handshake complete and the number of writers
      in flight at its swap was a multiple of 2^31. */
  lemma NotifiesExactly(mvs: seq<Move>, i: nat)
    requires i < |RunAll(mvs).calls| && RunAll(mvs).calls[i].CloseDone?
    ensures var c := RunAll(mvs).calls[i]; c.notified <==> c.complete && c.present % TWO31 == 0
  {
    hide RunAll, InFlight, Passed, Int32;
    RunInv(mvs);
    assert CallOk(RunAll(mvs).calls[i]);
    ZeroInt32(RunAll(mvs).calls[i].present);
  }

  lemma ZeroInt32(n: nat)
    ensures Int32(2 * n) == 0 <==> n % TWO31 == 0
  {
    var q, r := n / TWO31, n % TWO31;
    assert 2 * n == 2 * r + q * TWO32;
    Int32Same(2 * n, 2 * r);
  }

  lemma StepPresent(s: State, j: nat, i: nat)
    requires i < |s.calls| && j < |s.calls| && (IsPassed(s.calls[i]) ==> s.calls[i].present <= |s.calls|)
    ensures var c := Step(s, j).calls[i]; IsPassed(c) ==> c.present <= |s.calls|
  {
    hide InFlight, Int32, Odd;
  }

  lemma {:induction false} PresentBound(mvs: seq<Move>, i: nat)
    requires i < |RunAll(mvs).calls| && IsPassed(RunAll(mvs).calls[i])
    ensures RunAll(mvs).calls[i].present <= |RunAll(mvs).calls|
  {
    hide InFlight, Int32, Odd, Step;
    if mvs != [] {
      var s, mv := RunAll(mvs[..|mvs| - 1]), mvs[|mvs| - 1];
      if i < |s.calls| && IsPassed(s.calls[i]) { PresentBound(mvs[..|mvs| - 1], i); }
      if mv.Run? && mv.i < |s.calls| {
        SameCalls(s, mv.i);
        StepPresent(s, mv.i, i);
      }
    }
  }

  lemma SameCalls(s: State, i: nat)
    requires i < |s.calls|
    ensures |Step(s, i).calls| == |s.calls|
  {
    hide InFlight, Int32, Odd;
  }

  /** With fewer than 2^31 calls, that is: exactly when no Write was in flight and the handshake was complete. */
  lemma NotifiesOnlyWhenIdle(mvs: seq<Move>, i: nat)
    requires i < |RunAll(mvs).calls| < TWO31 && RunAll(mvs).calls[i].CloseDone?
    ensures var c := RunAll(mvs).calls[i]; c.notified <==> c.complete && c.present == 0
  {
    hide RunAll;
    NotifiesExactly(mvs, i);
    PresentBound(mvs, i);
  }

  // ---- Every call ends ----

  predicate Ended(c: Call) { c.WriteDone? || c.WriteRefused? || c.CloseDone? || c.CloseRefused? }

  function Steps(s: State, i: nat, n: nat): (r: State)
    requires i < |s.calls|
    decreases n
  {
    if n == 0 then s else SameCalls(s, i); Steps(Step(s, i), i, n - 1)
  }

  lemma StepsNext(s: State, i: nat, n: nat)
    requires i < |s.calls| && n > 0
    ensures |Step(s, i).calls| == |s.calls| && Steps(s, i, n) == Steps(Step(s, i), i, n - 1)
  {
    hide Step;
    SameCalls(s, i);
  }

  lemma {:induction false} EndedStays(s: State, i: nat, n: nat)
    requires i < |s.calls| && Ended(s.calls[i])
    ensures Steps(s, i, n) == s
    decreases n
  {
    if n > 0 {
      StepsNext(s, i, n);
      EndedStays(s, i, n - 1);
    }
  }

  lemma TakenBack(a: int)
    requires -TWO31 <= a < TWO31 && a % 2 == 0
    ensures Int32(Int32(a + 2) - 2) == a && Int32(a + 1) == a + 1
  {
  }

  /** A Write that starts is refused exactly when the closed bit is set, and else gives back what it took. */
  lemma WriteEnds(s: State, i: nat, n: nat)
    requires i < |s.calls| && -TWO31 <= s.active < TWO31 && s.calls[i] == WriteLoad && n >= 3
    ensures |Steps(s, i, n).calls| == |s.calls| && Steps(s, i, n).active == s.active
    ensures Steps(s, i, n).calls[i] == if s.active % 2 == 1 then WriteRefused else WriteDone
  {
    hide InFlight, Int32, Steps;
    var s1 := Step(s, i);
    StepsNext(s, i, n);
    var s2 := Step(s1, i);
    StepsNext(s1, i, n - 1);
    if s.active % 2 == 1 {
      EndedStays(s2, i, n - 2);
    } else {
      TakenBack(s.active);
      StepsNext(s2, i, n - 2);
      EndedStays(Step(s2, i), i, n - 3);
    }
  }

  /** A Close that starts is refused exactly when the closed bit is set, and else sets it. */
  lemma CloseEnds(s: State, i: nat, n: nat)
    requires i < |s.calls| && -TWO31 <= s.active < TWO31 && s.calls[i] == CloseLoad && n >= 3
    ensures var r := Steps(s, i, n);
      && |r.calls| == |s.calls| && Ended(r.calls[i])
      && r.active == (if s.active % 2 == 1 then s.active else s.active + 1)
      && (r.calls[i] == CloseRefused <==> s.active % 2 == 1)
  {
    hide InFlight, Int32, Steps;
    var s1 := Step(s, i);
    StepsNext(s, i, n);
    var s2 := Step(s1, i);
    StepsNext(s1, i, n - 1);
    if s.active % 2 == 1 {
      EndedStays(s2, i, n - 2);
    } else {
      TakenBack(s.active);
      StepsNext(s2, i, n - 2);
      EndedStays(Step(s2, i), i, n - 3);
    }
  }

  /** From any state, whatever the others have done: four operations of its own end a call. */
  lemma FourStepsEnd(s: State, i: nat)
    requires i < |s.calls| && -TWO31 <= s.active < TWO31
    ensures |Steps(s, i, 4).calls| == |s.calls| && Ended(Steps(s, i, 4).calls[i])
  {
    hide InFlight, Int32, Steps;
    var s1 := Step(s, i);
    StepsNext(s, i, 4);
    if Ended(s.calls[i]) {
      EndedStays(s, i, 4);
    } else if Ended(s1.calls[i]) {
      EndedStays(s1, i, 3);
    } else if s.calls[i] == WriteLoad {
      WriteEnds(s, i, 4);
    } else if s.calls[i] == CloseLoad {
      CloseEnds(s, i, 4);
    } else if s1.calls[i] == WriteLoad {
      WriteEnds(s1, i, 3);
    } else if s1.calls[i] == CloseLoad {
      CloseEnds(s1, i, 3);
    } else {
      StepsNext(s1, i, 3);
      EndedStays(Step(s1, i), i, 2);
    }
  }
}
