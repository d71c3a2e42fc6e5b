/** The hand-off between the application and the handshake goroutine of a QUIC connection, over the
    unbuffered channels blockedc and signalc and the cancellation of the handshake's context. */
module Quic {
  import opened Wire

  /** The connection's role, and whether the application asked for session events. */
  datatype Config = Config(isClient: bool, sessionEvents: bool)

  /** The callers of quicWaitForSignal: quicReadHandshakeBytes, quicGetTransportParameters, quicResumeSession. */
  datatype Site = HandshakeBytes | TransportParameters | ResumeSession

  /** quicResumeSession is called only when session events are on; the other two waits always happen. */
  predicate Reachable(c: Config, site: Site) { site == ResumeSession ==> c.sessionEvents }

  /** Whether the error of a cancelled wait is dropped on its way up: loadSession, on the client, ignores
      what quicResumeSession returns; checkForResumption, on the server, hands it on, and so do the other
      callers. */
  predicate Dropped(c: Config, site: Site) { site == ResumeSession && c.isClient }

  /** Where the handshake goroutine is. While Running it works on events, hand and readbuf. In
      quicWaitForSignal it first offers blockedc, then signalc, each against cancellation. Leaving is the
      way out after the last use of the shared fields; then blockedc is closed, then signalc. */
  datatype Hs =
    | Idle | Running | OfferBlocked(site: Site) | OfferSignal(site: Site) | Leaving | BlockedClosed | Exited

  /** Where the application is. Free means outside of the exported methods, or in their parts that use the
      shared fields; data says that the call is HandleData. */
  datatype App = Free | AwaitSignal(data: bool) | AwaitBlocked(data: bool) | Draining | Taking

  /** hand is everything ever written to it. */
  datatype State = State(hs: Hs, app: App, cancelled: bool, readbuf: Bytes, hand: Bytes)

  datatype Step =
    // the application's calls
    | Start | HandleData(d: Bytes) | Wake | Close | Cancel
    // the goroutine
    | Block(site: Site) | Finish | CloseBlocked | CloseSignal
    // the channels
    | MeetBlocked | MeetSignal | CancelBlocked | CancelSignal
    // the application's waits
    | SignalClosed | SeesBlockedClosed | Take

  function Begin(): (r: State) { State(Idle, Free, false, [], []) }

  /** A handed-on error ends the handshake; a dropped one lets it run on. */
  function AfterCancel(c: Config, site: Site): (hs: Hs) { if Dropped(c, site) then Running else Leaving }

  /** A step that is not enabled changes nothing. Wake stands for NextEvent after the events have been
      drained and for SetTransportParameters. */
  function Apply(c: Config, s: State, step: Step): (r: State)
  {
    match step
    case Start => if s.app == Free && s.hs == Idle then s.(hs := Running, app := AwaitBlocked(false)) else s
    case HandleData(d) =>
      if s.app == Free && s.hs != Idle then s.(readbuf := d, app := AwaitSignal(true)) else s
    case Wake => if s.app == Free && s.hs != Idle then s.(app := AwaitSignal(false)) else s
    case Close => if s.app == Free && s.hs != Idle then s.(cancelled := true, app := Draining) else s
    case Cancel => s.(cancelled := true)
    case Block(site) => if s.hs == Running && Reachable(c, site) then s.(hs := OfferBlocked(site)) else s
    case Finish => if s.hs == Running then s.(hs := Leaving) else s
    case CloseBlocked => if s.hs == Leaving then s.(hs := BlockedClosed) else s
    case CloseSignal => if s.hs == BlockedClosed then s.(hs := Exited) else s
    case MeetBlocked =>
      if s.hs.OfferBlocked? && s.app.AwaitBlocked? then s.(hs := OfferSignal(s.hs.site), app := Free)
      else if s.hs.OfferBlocked? && s.app == Draining then s.(hs := OfferSignal(s.hs.site)) else s
    case MeetSignal =>
      if s.hs.OfferSignal? && s.app.AwaitSignal?
      then s.(hs := Running, app := AwaitBlocked(s.app.data), hand := s.hand + s.readbuf, readbuf := []) else s
    case CancelBlocked => if s.hs.OfferBlocked? && s.cancelled then s.(hs := AfterCancel(c, s.hs.site)) else s
    case CancelSignal => if s.hs.OfferSignal? && s.cancelled then s.(hs := AfterCancel(c, s.hs.site)) else s
    case SignalClosed => if s.app.AwaitSignal? && s.hs == Exited then s.(app := AwaitBlocked(s.app.data)) else s
    case SeesBlockedClosed =>
      if s.hs != BlockedClosed && s.hs != Exited then s
      else if s.app.AwaitBlocked? then s.(app := if s.app.data then Taking else Free)
      else if s.app == Draining then s.(app := Free) else s
    case Take => if s.app == Taking then s.(app := Free, hand := s.hand + s.readbuf, readbuf := []) else s
  }

  function Run(c: Config, steps: seq<Step>): (r: State)
  {
    if steps == [] then Begin() else Apply(c, Run(c, steps[..|steps| - 1]), steps[|steps| - 1])
  }

  // ---- Bytes ----

  /** A call of HandleData gets through when the application is outside of other calls and has started. */
  predicate Callable(s: State) { s.app == Free && s.hs != Idle }

  /** The data of all calls of HandleData that got through, in order. */
  function Given(c: Config, steps: seq<Step>): (bytes: Bytes)
  {
    if steps == [] then [] else
    var front, step := steps[..|steps| - 1], steps[|steps| - 1];
    Given(c, front) + if step.HandleData? && Callable(Run(c, front)) then step.d else []
  }

  /** What has not reached hand is in readbuf, and only while the call that brought it is still under way. */
  predicate Pending(s: State)
  {
    s.readbuf != [] ==>
    s.app == AwaitSignal(true) || s.app == Taking || (s.app == AwaitBlocked(true) && s.hs == Exited)
  }

  lemma StepConserves(c: Config, s: State, step: Step)
    requires Pending(s)
    ensures Pending(Apply(c, s, step))
    ensures var s' := Apply(c, s, step);
            s'.hand + s'.readbuf == s.hand + s.readbuf + if step.HandleData? && Callable(s) then step.d else []
  {
  }

  /** In every interleaving: the bytes in hand, and then those still in readbuf, are exactly the bytes given to
      HandleData, in order; and outside of a call every byte has reached hand, whether the goroutine
      runs, waits, has returned or was cancelled. */
  lemma {:induction false} BytesConserved(c: Config, steps: seq<Step>)
    ensures Pending(Run(c, steps)) && Run(c, steps).hand + Run(c, steps).readbuf == Given(c, steps)
    ensures Run(c, steps).app == Free ==> Run(c, steps).hand == Given(c, steps)
  {
    if steps != [] {
      BytesConserved(c, steps[..|steps| - 1]);
      StepConserves(c, Run(c, steps[..|steps| - 1]), steps[|steps| - 1]);
    }
    var s := Run(c, steps);
    assert s.hand + [] == s.hand;
  }

  // ---- Exclusion ----

  predicate AppUses(s: State) { s.app == Free || s.app == Taking }
  predicate HsUses(s: State) { s.hs == Running }

  predicate Exclusive(s: State) { !(AppUses(s) && HsUses(s)) }

  /** Some wait's error is dropped. */
  predicate Racy(c: Config) { c.isClient && c.sessionEvents }

  /** Who waits where, when no error is dropped. */
  predicate Turns(c: Config, s: State)
  {
    && (match s.app
        case Free =>
          s.hs == Idle || s.hs.OfferSignal? || s.hs == Leaving || s.hs == BlockedClosed || s.hs == Exited
        case AwaitSignal(_) => s.hs.OfferSignal? || s.hs == Leaving || s.hs == BlockedClosed || s.hs == Exited
        case AwaitBlocked(_) => s.hs != Idle && !s.hs.OfferSignal?
        case Draining => s.hs != Idle && s.cancelled
        case Taking => s.hs == BlockedClosed || s.hs == Exited)
    && (s.hs.OfferBlocked? || s.hs.OfferSignal? ==> Reachable(c, s.hs.site))
  }

  lemma {:induction false} RunTurns(c: Config, steps: seq<Step>)
    requires !Racy(c)
    ensures Turns(c, Run(c, steps))
  {
    if steps != [] {
      RunTurns(c, steps[..|steps| - 1]);
      StepTurns(c, Run(c, steps[..|steps| - 1]), steps[|steps| - 1]);
    }
  }

  lemma StepTurns(c: Config, s: State, step: Step)
    requires !Racy(c) && Turns(c, s)
    ensures Turns(c, Apply(c, s, step))
  {
  }

  /** Application and goroutine are never both at the shared fields, in any interleaving, exactly when the
      connection is not a client with session events. */
  lemma ExclusionExactly(c: Config)
    ensures (forall steps :: Exclusive(Run(c, steps))) <==> !(c.isClient && c.sessionEvents)
  {
    if Racy(c) {
      ResumingClientRaces();
    } else {
      forall steps ensures Exclusive(Run(c, steps)) { RunTurns(c, steps); }
    }
  }

  lemma RunNext(c: Config, steps: seq<Step>, step: Step)
    ensures Run(c, steps + [step]) == Apply(c, Run(c, steps), step)
  {
    assert (steps + [step])[..|steps|] == steps;
  }

  /** The client waits for its resumption event to be drained, the context is cancelled, and the handshake
      goes on as if nothing had happened while the application is free. */
  lemma ResumingClientRaces()
    ensures !Exclusive(Run(Config(true, true),
                           [Start] + [Block(ResumeSession)] + [MeetBlocked] + [Cancel] + [CancelSignal]))
  {
    hide Run;
    var c, a: seq<Step> := Config(true, true), [Start];
    RunNone(c);
    RunNext(c, [], Start);
    assert [] + a == a;
    RunNext(c, a, Block(ResumeSession));
    RunNext(c, a + [Block(ResumeSession)], MeetBlocked);
    RunNext(c, a + [Block(ResumeSession)] + [MeetBlocked], Cancel);
    RunNext(c, a + [Block(ResumeSession)] + [MeetBlocked] + [Cancel], CancelSignal);
  }

  lemma RunNone(c: Config)
    ensures Run(c, []) == Begin()
  {
  }

  /** Who waits where before any cancellation, on any connection. */
  predicate UncancelledTurns(s: State)
  {
    && !s.cancelled
    && match s.app
       case Free => s.hs == Idle || s.hs.OfferSignal? || s.hs == Leaving || s.hs == BlockedClosed || s.hs == Exited
       case AwaitSignal(_) => s.hs.OfferSignal? || s.hs == Leaving || s.hs == BlockedClosed || s.hs == Exited
       case AwaitBlocked(_) => s.hs != Idle && !s.hs.OfferSignal?
       case Draining => false
       case Taking => s.hs == BlockedClosed || s.hs == Exited
  }

  lemma StepUncancelled(c: Config, s: State, step: Step)
    requires UncancelledTurns(s) && step != Cancel && step != Close
    ensures UncancelledTurns(Apply(c, s, step))
  {
  }

  /** Even on a client with session events, exclusion holds in every run without a cancellation. */
  lemma {:induction false} OnlyCancellationRaces(c: Config, steps: seq<Step>)
    requires Cancel !in steps && Close !in steps
    ensures UncancelledTurns(Run(c, steps)) && Exclusive(Run(c, steps))
  {
    if steps != [] {
      var front, step := steps[..|steps| - 1], steps[|steps| - 1];
      assert steps == front + [step];
      OnlyCancellationRaces(c, front);
      StepUncancelled(c, Run(c, front), step);
    }
  }

  // ---- No one waits forever ----

  /** The steps that need no decision of the application. */
  predicate Internal(step: Step)
  {
    !step.Start? && !step.HandleData? && !step.Wake? && !step.Close? && !step.Cancel?
  }

  predicate CanMove(c: Config, s: State, step: Step) { Internal(step) && Apply(c, s, step) != s }

  /** What a waiting application waits for, on any connection. */
  predicate Awaited(s: State)
  {
    && (s.app != Free ==> s.hs != Idle)
    && ((s.app == Free || s.app.AwaitSignal?) && (s.hs == Running || s.hs.OfferBlocked?) ==> s.cancelled)
    && (s.app.AwaitBlocked? ==> !s.hs.OfferSignal? || s.cancelled)
    && (s.app == Draining ==> s.cancelled)
    && (s.app == Taking ==> s.hs == BlockedClosed || s.hs == Exited)
  }

  lemma {:induction false} RunAwaited(c: Config, steps: seq<Step>)
    ensures Awaited(Run(c, steps))
  {
    if steps != [] {
      RunAwaited(c, steps[..|steps| - 1]);
      StepAwaited(c, Run(c, steps[..|steps| - 1]), steps[|steps| - 1]);
    }
  }

  lemma StepAwaited(c: Config, s: State, step: Step)
    requires Awaited(s)
    ensures Awaited(Apply(c, s, step))
  {
  }

  /** Whenever the application is inside a call, the goroutine or a channel can make progress. */
  lemma NoDeadlock(c: Config, steps: seq<Step>)
    requires Run(c, steps).app != Free
    ensures exists step :: CanMove(c, Run(c, steps), step)
  {
    hide Run;
    RunAwaited(c, steps);
    var s := Run(c, steps);
    var step := match s.hs
      case Idle => Take
      case Running => Finish
      case OfferBlocked(_) => if s.app.AwaitBlocked? || s.app == Draining then MeetBlocked else CancelBlocked
      case OfferSignal(_) => if s.app.AwaitSignal? then MeetSignal else CancelSignal
      case Leaving => CloseBlocked
      case BlockedClosed => CloseSignal
      case Exited =>
        if s.app.AwaitSignal? then SignalClosed else if s.app == Taking then Take else SeesBlockedClosed;
    assert CanMove(c, s, step);
  }

  function Onward(c: Config, s: State, steps: seq<Step>): (r: State)
    decreases |steps|
  {
    if steps == [] then s else Onward(c, Apply(c, s, steps[0]), steps[1..])
  }

  lemma {:induction false} RunOnward(c: Config, steps: seq<Step>, more: seq<Step>)
    ensures Run(c, steps + more) == Onward(c, Run(c, steps), more)
    decreases |more|
  {
    hide Apply;
    if more == [] {
      assert steps + more == steps;
    } else {
      RunNext(c, steps, more[0]);
      RunOnward(c, steps + [more[0]], more[1..]);
      assert steps + more == (steps + [more[0]]) + more[1..];
    }
  }

  lemma OnwardBy(c: Config, s: State, a: Step, b: Step, x: Step, y: Step)
    ensures var t := Apply(c, Apply(c, s, a), b);
            && Onward(c, s, [a, b]) == t && Onward(c, s, [a, b, x]) == Apply(c, t, x)
            && Onward(c, s, [a, b, x, y]) == Apply(c, Apply(c, t, x), y)
  {
    hide Apply;
    var s1 := Apply(c, s, a);
    var s2 := Apply(c, s1, b);
    var s3 := Apply(c, s2, x);
    assert [a, b][1..] == [b] && [b][1..] == [] && [a, b, x][1..] == [b, x] && [b, x][1..] == [x] && [x][1..] == [];
    assert [a, b, x, y][1..] == [b, x, y] && [b, x, y][1..] == [x, y] && [x, y][1..] == [y] && [y][1..] == [];
    assert Onward(c, s2, [x]) == s3 && Onward(c, s3, [y]) == Apply(c, s3, y);
    assert Onward(c, s2, [x, y]) == Apply(c, s3, y);
    assert Onward(c, s1, [b]) == s2 && Onward(c, s1, [b, x]) == s3 && Onward(c, s1, [b, x, y]) == Apply(c, s3, y);
  }

  /** In every run, outside of a call: a goroutine that waits for a signal runs on with the data brought to it, or
      with none when it is only woken. */
  lemma SignalGetsThrough(c: Config, steps: seq<Step>, d: Bytes)
    requires Run(c, steps).app == Free && Run(c, steps).hs.OfferSignal?
    ensures var s := Run(c, steps + [Wake, MeetSignal]); s.hs == Running && s.hand == Given(c, steps)
    ensures var s := Run(c, steps + [HandleData(d), MeetSignal]); s.hs == Running && s.hand == Given(c, steps) + d
  {
    hide Given, Run, Onward;
    BytesConserved(c, steps);
    var s := Run(c, steps);
    assert s.hand + [] == s.hand;
    RunOnward(c, steps, [Wake, MeetSignal]);
    RunOnward(c, steps, [HandleData(d), MeetSignal]);
    OnwardBy(c, s, Wake, MeetSignal, Take, Take);
    OnwardBy(c, s, HandleData(d), MeetSignal, Take, Take);
  }

  /** Once the goroutine is gone a call still ends, and its data still reaches hand. */
  lemma ExitedGetsThrough(c: Config, steps: seq<Step>, d: Bytes)
    requires Run(c, steps).app == Free && Run(c, steps).hs == Exited
    ensures Run(c, steps + [Wake, SignalClosed, SeesBlockedClosed]) == Run(c, steps)
    ensures Run(c, steps + [HandleData(d), SignalClosed, SeesBlockedClosed, Take]) ==
            Run(c, steps).(hand := Given(c, steps) + d)
  {
    hide Given, Run, Onward;
    BytesConserved(c, steps);
    RunOnward(c, steps, [Wake, SignalClosed, SeesBlockedClosed]);
    RunOnward(c, steps, [HandleData(d), SignalClosed, SeesBlockedClosed, Take]);
    var s := Run(c, steps);
    OnwardBy(c, s, Wake, SignalClosed, SeesBlockedClosed, Take);
    OnwardBy(c, s, HandleData(d), SignalClosed, SeesBlockedClosed, Take);
  }
}
