/** The kick handshake with EVENT_IDX as two threads that interleave at every access to shared memory
    (toy-virtq-raw/src/driver.rs:171-180, device.rs:333-345), under sequential consistency. */
module Wakeup {
  import opened Words
  import opened Notify

  /** Where the device is in its loop: taking chains; having found none; having published `avail_event`;
      waiting for a kick. */
  datatype Phase = Draining | Arming | Rechecking | Sleeping

  /** The shared fields, each side's own 16-bit counters, and the unbounded counts they stand for. */
  datatype State = State(
    availIdx: u16, availEvent: u16,                   // shared memory
    lastKick: u16,                                    // the driver's
    nextAvail: u16, phase: Phase, kicked: bool,       // the device's, and whether a kick is on its way to it
    published: nat, consumed: nat, checked: nat)

  datatype Step =
    | Publish               // the driver stores avail.idx
    | Check(latched: bool)  // the driver loads avail_event and decides; a kick that reaches a device already
                            // awake is remembered or lost
    | TakeOrStop            // the device loads avail.idx and takes a chain, or finds none
    | Arm                   // the device stores avail_event
    | Recheck               // the device loads avail.idx again, and sleeps if there is still nothing
    | Wake                  // a kick reaches the sleeping device

  const INITIAL := State(0, 0, 0, 0, Sleeping, false, 0, 0, 0)

  /** A driver publishes only into a ring slot the device has consumed. */
  predicate Enabled(qs: nat, s: State, step: Step) {
    match step
    case Publish => s.published - s.consumed < qs
    case Check(_) => true
    case TakeOrStop => s.phase == Draining
    case Arm => s.phase == Arming
    case Recheck => s.phase == Rechecking
    case Wake => s.phase == Sleeping && s.kicked
  }

  /** It also checks at least once in any 65535 publications. */
  predicate Prompt(s: State, step: Step) {
    step == Publish ==> s.published - s.checked < 0xffff
  }

  function Kicks(s: State): bool {
    NeedEvent(s.availEvent, s.availIdx, s.lastKick)
  }

  function Next(s: State, step: Step): State {
    match step
    case Publish => s.(availIdx := Wrap(s.availIdx + 1), published := s.published + 1)
    case Check(latched) =>
      s.(kicked := s.kicked || (Kicks(s) && (latched || s.phase == Sleeping)),
         lastKick := s.availIdx, checked := s.published)
    case TakeOrStop =>
      if Wrap(s.availIdx - s.nextAvail) == 0 then s.(phase := Arming)
      else s.(nextAvail := Wrap(s.nextAvail + 1), consumed := s.consumed + 1)
    case Arm => s.(availEvent := s.nextAvail, phase := Rechecking)
    case Recheck => s.(phase := if Wrap(s.availIdx - s.nextAvail) != 0 then Draining else Sleeping)
    case Wake => s.(phase := Draining, kicked := false)
  }

  /** The 16-bit counters show the unbounded ones, whatever the driver does about checks. */
  ghost predicate Shown(qs: nat, s: State) {
    && s.availIdx == Wrap(s.published) && s.nextAvail == Wrap(s.consumed) && s.lastKick == Wrap(s.checked)
    && s.consumed <= s.published <= s.consumed + qs && s.checked <= s.published
    && (s.phase == Rechecking || s.phase == Sleeping ==> s.availEvent == Wrap(s.consumed))
  }

  ghost predicate Inv(qs: nat, s: State) {
    && Shown(qs, s)
    && s.published < s.checked + 0x1_0000
    // a device asleep without a kick on its way went to sleep after every check that looked further
    && (s.phase == Sleeping && !s.kicked ==> s.checked <= s.consumed)
  }

  lemma StepShows(qs: nat, s: State, step: Step)
    requires qs <= 32768 && Shown(qs, s) && Enabled(qs, s, step)
    ensures Shown(qs, Next(s, step))
  {
    hide Wrap, NeedEvent;
    WrapDistance(s.published, 1);
    WrapDistance(s.consumed, 1);
    WrapDistance(s.published, s.consumed);
    WrapSmall(s.published - s.consumed);
  }

  lemma StepKeeps(qs: nat, s: State, step: Step)
    requires qs <= 32768 && Inv(qs, s) && Enabled(qs, s, step) && Prompt(s, step)
    ensures Inv(qs, Next(s, step))
  {
    hide Wrap, NeedEvent;
    StepShows(qs, s, step);
    WrapDistance(s.published, s.consumed);
    WrapSmall(s.published - s.consumed);
    if step.Check? && s.phase == Sleeping && !s.kicked && s.consumed < s.published {
      FiresUnlessPassed(s.consumed, s.checked, s.published);
    }
  }

  /** The states of an interleaving. */
  ghost predicate Interleaving(qs: nat, states: seq<State>, steps: seq<Step>) {
    && |states| == |steps| + 1 && states[0] == INITIAL
    && forall i | 0 <= i < |steps| :: Enabled(qs, states[i], steps[i]) && states[i + 1] == Next(states[i], steps[i])
  }

  ghost predicate AllPrompt(states: seq<State>, steps: seq<Step>)
    requires |states| == |steps| + 1
  {
    forall i | 0 <= i < |steps| :: Prompt(states[i], steps[i])
  }

  lemma {:induction false} InterleavingShows(qs: nat, states: seq<State>, steps: seq<Step>, i: nat)
    requires qs <= 32768 && Interleaving(qs, states, steps) && i < |states|
    ensures Shown(qs, states[i])
  {
    hide Next, Enabled;
    if i > 0 {
      InterleavingShows(qs, states, steps, i - 1);
      hide Shown;
      assert Enabled(qs, states[i - 1], steps[i - 1]);
      StepShows(qs, states[i - 1], steps[i - 1]);
    }
  }

  lemma {:induction false} InterleavingKeeps(qs: nat, states: seq<State>, steps: seq<Step>, i: nat)
    requires qs <= 32768 && Interleaving(qs, states, steps) && AllPrompt(states, steps) && i < |states|
    ensures Inv(qs, states[i])
  {
    hide Next, Enabled, Prompt;
    if i > 0 {
      InterleavingKeeps(qs, states, steps, i - 1);
      hide Inv;
      assert Enabled(qs, states[i - 1], steps[i - 1]) && Prompt(states[i - 1], steps[i - 1]);
      StepKeeps(qs, states[i - 1], steps[i - 1]);
    }
  }

  /** No wake-up is lost: in every state of every interleaving, a device that sleeps while chains wait has a
      kick on its way, or the driver still owes a check and that check will kick. In particular a driver that
      has checked since it last published never leaves such a device asleep. */
  lemma NoLostWakeup(qs: nat, states: seq<State>, steps: seq<Step>, i: nat)
    requires qs <= 32768 && Interleaving(qs, states, steps) && AllPrompt(states, steps) && i < |states|
    ensures var s := states[i];
      s.phase == Sleeping && s.consumed < s.published ==> s.kicked || (s.checked < s.published && Kicks(s))
  {
    InterleavingKeeps(qs, states, steps, i);
    var s := states[i];
    if s.phase == Sleeping && !s.kicked && s.consumed < s.published {
      hide Wrap, NeedEvent;
      FiresUnlessPassed(s.consumed, s.checked, s.published);
    }
  }

  // ---------------------------------------------------------------- without the bound on checks

  /** What the device sees of the ring is right in every state: its wrapped distance to `avail.idx` is the
      number of chains that wait. */
  lemma DistanceIsBacklog(qs: nat, states: seq<State>, steps: seq<Step>, i: nat)
    requires qs <= 32768 && Interleaving(qs, states, steps) && i < |states|
    ensures var s := states[i]; Wrap(s.availIdx - s.nextAvail) == s.published - s.consumed <= qs
  {
    InterleavingShows(qs, states, steps, i);
    hide Wrap;
    WrapDistance(states[i].published, states[i].consumed);
    WrapSmall(states[i].published - states[i].consumed);
  }

  /** Without that bound: whenever the device sleeps while chains wait, in any interleaving at all, the driver's
      next check kicks if and only if the publications since its last check, counted modulo 65536, reach back
      to the first waiting chain. */
  lemma OwedCheckExactly(qs: nat, states: seq<State>, steps: seq<Step>, i: nat)
    requires qs <= 32768 && Interleaving(qs, states, steps) && i < |states|
    requires states[i].phase == Sleeping && states[i].consumed < states[i].published
    ensures var s := states[i]; Kicks(s) <==> s.published - s.consumed <= Wrap(s.published - s.checked)
  {
    InterleavingShows(qs, states, steps, i);
    var s := states[i];
    hide Wrap, NeedEvent;
    Distances(Wrap(s.consumed), s.checked, s.published);
    WrapDistance(s.consumed, 1 - s.published);
    WrapBack(s.published, s.consumed);
  }

  /** With checks as often as required, the driver's next check sends a sleeping device a kick if and only if a chain
      waits, unless one is on its way: none is lost and none is for nothing. */
  lemma CheckExactly(qs: nat, states: seq<State>, steps: seq<Step>, i: nat, latched: bool)
    requires qs <= 32768 && Interleaving(qs, states, steps) && AllPrompt(states, steps) && i < |states|
    requires states[i].phase == Sleeping && !states[i].kicked
    ensures var s := states[i];
      && (Next(s, Check(latched)).kicked <==> s.consumed < s.published)
      && s.checked <= s.consumed
  {
    InterleavingKeeps(qs, states, steps, i);
    var s := states[i];
    hide Wrap, NeedEvent;
    if s.consumed < s.published {
      FiresUnlessPassed(s.consumed, s.checked, s.published);
    } else {
      NotYet(s.consumed, s.checked);
    }
  }

  lemma NotYet(at: nat, checked: nat)
    ensures !NeedEvent(Wrap(at), Wrap(at), Wrap(checked))
  {
    hide Wrap;
    Distances(Wrap(at), checked, at);
    WrapTaken(at - 1, at);
    LapLess();
  }

  lemma LapLess()
    ensures Wrap(-1) == 0xffff
  {
  }

  lemma WrapBack(published: nat, consumed: nat)
    requires consumed < published <= consumed + 32768
    ensures Wrap(published - Wrap(consumed) - 1) == published - consumed - 1
  {
  }

  /** `t` is reached from `s` by these steps. */
  predicate Leads(qs: nat, s: State, steps: seq<Step>, t: State)
    decreases |steps|
  {
    if steps == [] then s == t
    else Enabled(qs, s, steps[0]) && Leads(qs, Next(s, steps[0]), steps[1..], t)
  }

  lemma {:induction false} LeadsOn(qs: nat, s: State, a: seq<Step>, t: State, b: seq<Step>, u: State)
    requires Leads(qs, s, a, t) && Leads(qs, t, b, u)
    ensures Leads(qs, s, a + b, u)
    decreases |a|
  {
    if a == [] {
      assert a + b == b;
    } else {
      LeadsOn(qs, Next(s, a[0]), a[1..], t, b, u);
      assert (a + b)[1..] == a[1..] + b;
    }
  }

  /** Steps that lead somewhere from the initial state are an interleaving that ends there. */
  lemma {:induction false} LeadsInterleaves(qs: nat, s: State, steps: seq<Step>, t: State) returns (states: seq<State>)
    requires Leads(qs, s, steps, t)
    ensures |states| == |steps| + 1 && states[0] == s && states[|steps|] == t
    ensures forall i | 0 <= i < |steps| ::
        Enabled(qs, states[i], steps[i]) && states[i + 1] == Next(states[i], steps[i])
    decreases |steps|
  {
    hide Next, Enabled;
    if steps == [] {
      states := [s];
    } else {
      var rest := LeadsInterleaves(qs, Next(s, steps[0]), steps[1..], t);
      states := [s] + rest;
      forall i | 0 <= i < |steps|
        ensures Enabled(qs, states[i], steps[i]) && states[i + 1] == Next(states[i], steps[i])
      {
        assert i > 0 ==> states[i] == rest[i - 1] && steps[i] == steps[1..][i - 1];
        assert states[i + 1] == rest[i];
      }
    }
  }

  /** Awake: everything published so far consumed, `n` chains of it since the driver last checked. */
  ghost function Awake(n: nat): State {
    State(Wrap(n + 1), 0, 1, Wrap(n + 1), Draining, false, n + 1, n + 1, 1)
  }

  /** Asleep after chain 32769, with `n` more chains published since. */
  ghost function Asleep(n: nat): State {
    State(Wrap(32769 + n), 32769, 1, 32769, Sleeping, false, 32769 + n, 32769, 1)
  }

  lemma WakesUp() returns (steps: seq<Step>)
    ensures Leads(32768, INITIAL, steps, Awake(0))
  {
    steps := [Publish, Check(true), Wake, TakeOrStop];
    var s1 := Next(INITIAL, Publish);
    var s2 := Next(s1, Check(true));
    assert s2 == State(1, 0, 1, 0, Sleeping, true, 1, 0, 1);
    var s3 := Next(s2, Wake);
    assert Next(s3, TakeOrStop) == Awake(0);
    assert steps[1..] == [Check(true), Wake, TakeOrStop] && steps[1..][1..] == [Wake, TakeOrStop];
    assert steps[1..][1..][1..] == [TakeOrStop] && [TakeOrStop][1..] == [];
    hide Next;
    assert Leads(32768, s3, [TakeOrStop], Awake(0));
    assert Leads(32768, s2, [Wake, TakeOrStop], Awake(0));
    assert Leads(32768, s1, [Check(true), Wake, TakeOrStop], Awake(0));
  }

  lemma TakesOneMore(n: nat)
    requires n < 0x1_0000
    ensures Leads(32768, Awake(n), [Publish, TakeOrStop], Awake(n + 1))
  {
    var s := Next(Awake(n), Publish);
    assert [Publish, TakeOrStop][1..] == [TakeOrStop] && [TakeOrStop][1..] == [];
    OneApart(n + 1);
    assert Next(s, TakeOrStop) == Awake(n + 1);
    hide Next, Wrap;
    assert Leads(32768, s, [TakeOrStop], Awake(n + 1));
  }

  lemma OneApart(n: nat)
    ensures Wrap(Wrap(n) + 1) == Wrap(n + 1) && Wrap(Wrap(n + 1) - Wrap(n)) == 1
  {
  }

  lemma {:induction false} TakesMany(n: nat) returns (steps: seq<Step>)
    requires n <= 32768
    ensures Leads(32768, INITIAL, steps, Awake(n))
  {
    hide Leads, Awake;
    if n == 0 {
      steps := WakesUp();
    } else {
      var before := TakesMany(n - 1);
      TakesOneMore(n - 1);
      LeadsOn(32768, INITIAL, before, Awake(n - 1), [Publish, TakeOrStop], Awake(n));
      steps := before + [Publish, TakeOrStop];
    }
  }

  lemma FallsAsleep()
    ensures Leads(32768, Awake(32768), [TakeOrStop, Arm, Recheck], Asleep(0))
  {
    var s1 := Next(Awake(32768), TakeOrStop);
    assert s1 == State(32769, 0, 1, 32769, Arming, false, 32769, 32769, 1);
    var s2 := Next(s1, Arm);
    assert Next(s2, Recheck) == Asleep(0);
    assert [TakeOrStop, Arm, Recheck][1..] == [Arm, Recheck] && [Arm, Recheck][1..] == [Recheck];
    assert [Recheck][1..] == [];
    hide Next;
    assert Leads(32768, s2, [Recheck], Asleep(0));
    assert Leads(32768, s1, [Arm, Recheck], Asleep(0));
  }

  lemma PublishesOneMore(n: nat)
    requires n < 32768
    ensures Leads(32768, Asleep(n), [Publish], Asleep(n + 1))
  {
    assert [Publish][1..] == [];
    OneApart(32769 + n);
    assert Next(Asleep(n), Publish) == Asleep(n + 1);
  }

  lemma {:induction false} PublishesMany(n: nat) returns (steps: seq<Step>)
    requires n <= 32768
    ensures Leads(32768, INITIAL, steps, Asleep(n))
  {
    hide Leads, Asleep, Awake;
    if n == 0 {
      var before := TakesMany(32768);
      FallsAsleep();
      LeadsOn(32768, INITIAL, before, Awake(32768), [TakeOrStop, Arm, Recheck], Asleep(0));
      steps := before + [TakeOrStop, Arm, Recheck];
    } else {
      var before := PublishesMany(n - 1);
      PublishesOneMore(n - 1);
      LeadsOn(32768, INITIAL, before, Asleep(n - 1), [Publish], Asleep(n));
      steps := before + [Publish];
    }
  }

  /** And the bound is needed: a driver that does not check for 65536 publications can leave the device asleep
      with 32768 chains waiting, no kick on its way, and an owed check that will not kick. */
  lemma BoundIsNeeded() returns (states: seq<State>, steps: seq<Step>)
    ensures Interleaving(32768, states, steps)
    ensures var s := states[|steps|];
      s.phase == Sleeping && s.consumed < s.published && !s.kicked && s.checked < s.published && !Kicks(s)
  {
    steps := PublishesMany(32768);
    states := LeadsInterleaves(32768, INITIAL, steps, Asleep(32768));
    FullLapIsSilent(32769, 1);
  }

  // ---------------------------------------------------------------- why the second look is there

  /** The device without the second look: it sleeps as soon as it has stored `avail_event`. */
  function NextWithoutRecheck(s: State, step: Step): State {
    if step == Arm then s.(availEvent := s.nextAvail, phase := Sleeping) else Next(s, step)
  }

  function RunWithoutRecheck(s: State, steps: seq<Step>): State
    decreases |steps|
  {
    if steps == [] then s else RunWithoutRecheck(NextWithoutRecheck(s, steps[0]), steps[1..])
  }

  /** A chain published between the last empty look and the store of `avail_event` is then lost, even when
      every kick is remembered. */
  lemma RecheckIsNeeded()
    ensures var s := RunWithoutRecheck(INITIAL,
        [Publish, Check(true), Wake, TakeOrStop, TakeOrStop, Publish, Check(true), Arm]);
      s.phase == Sleeping && !s.kicked && s.consumed < s.published == s.checked
  {
    var s1 := RunWithoutRecheck(INITIAL, [Publish, Check(true), Wake]);
    assert s1 == State(1, 0, 1, 0, Draining, false, 1, 0, 1);
    var s2 := RunWithoutRecheck(s1, [TakeOrStop, TakeOrStop]);
    assert s2 == State(1, 0, 1, 1, Arming, false, 1, 1, 1);
    var s3 := RunWithoutRecheck(s2, [Publish, Check(true), Arm]);
    assert s3 == State(2, 1, 2, 1, Sleeping, false, 2, 1, 2);
    RunsJoin(INITIAL, [Publish, Check(true), Wake], [TakeOrStop, TakeOrStop]);
    RunsJoin(INITIAL, [Publish, Check(true), Wake] + [TakeOrStop, TakeOrStop], [Publish, Check(true), Arm]);
    assert [Publish, Check(true), Wake] + [TakeOrStop, TakeOrStop] + [Publish, Check(true), Arm]
        == [Publish, Check(true), Wake, TakeOrStop, TakeOrStop, Publish, Check(true), Arm];
  }

  lemma {:induction false} RunsJoin(s: State, a: seq<Step>, b: seq<Step>)
    ensures RunWithoutRecheck(s, a + b) == RunWithoutRecheck(RunWithoutRecheck(s, a), b)
    decreases |a|
  {
    if a == [] {
      assert a + b == b;
    } else {
      RunsJoin(NextWithoutRecheck(s, a[0]), a[1..], b);
      assert (a + b)[1..] == a[1..] + b;
    }
  }
}
