/**
 * The meteor-swarm station event (Content.Server/StationEvents/Events/MeteorSwarmSystem.cs):
 * a game rule that, once added, announces itself, fires timed waves of meteors at
 * the largest grid of a random station, and a fixed delay after the last wave
 * announces its end and ends itself exactly once.
 *
 * Time is an integer tick count. Every random draw of a tick (the next
 * cooldown, the batch size, the prototype picked for each meteor) and every
 * answer of the host (is the entity deleted, which station and grid) is an
 * explicit input. Outbound calls to the chat, audio and spawning services are
 * recorded as `Event`s, in the order the source makes them.
 */
module MeteorSwarm {
  import opened Wrappers

  /** The id of a meteor entity prototype. */
  type Proto = string

  /** The largest grid of the picked station, the target of a wave. */
  type GridId = nat

  /** The component's configuration, read but never written by the system. */
  datatype Config = Config(
    endDelay: int,                      // EndDelay, in ticks
    meteors: seq<Proto>,                // Meteors: the prototypes a meteor is picked from
    announcement: Option<string>,       // Announcement: start text, optional
    announcementSound: string,          // AnnouncementSound: start sound, always played
    endAnnouncement: Option<string>,    // EndAnnouncement: end text, optional
    endSound: Option<string>)           // EndSound: optional

  /** One outbound call to a host service. */
  datatype Event =
    | StartText(locId: string)          // DispatchFilteredAnnouncement at activation
    | StartSound(sound: string)         // PlayGlobal at activation
    | EndText(locId: string)            // DispatchFilteredAnnouncement at the end
    | EndSound(sound: string)           // PlayGlobal at the end
    | SpawnMeteor(proto: Proto, grid: GridId)  // Spawn plus its impulse, geometry abstracted
    | ForceEnd                          // ForceEndSelf

  /** The component fields the system updates, plus whether the game rule is still active. */
  datatype SwarmState = SwarmState(
    waveCounter: int,
    nextWaveTime: int,
    ending: bool,
    endSoundTime: int,
    ruleActive: bool)

  /** What the station lookup of a wave tick finds. */
  datatype TargetLookup =
    | NoStations                        // GetStations() is empty
    | NoGrid                            // the picked station has no largest grid
    | Found(grid: GridId)

  /** Everything one `ActiveTick` call consumes besides the component itself. */
  datatype TickInput = TickInput(
    now: int,                           // Timing.CurTime
    deleted: bool,                      // MetaData(uid).EntityDeleted
    cooldown: int,                      // WaveCooldown.Next(...), used once the deadline is reached
    target: TargetLookup,
    meteorsToSpawn: int,                // MeteorsPerWave.Next(...)
    picks: seq<Proto>)                  // RobustRandom.Pick(Meteors) for meteor 0, 1, ...

  /** Which path through `ActiveTick` a tick took. */
  datatype Outcome = Guarded | EndWaiting | Finished | Waiting | Skipped | Wave

  datatype TickResult = TickResult(state: SwarmState, events: seq<Event>, outcome: Outcome)

  /** The injected pick stream covers the batch and only picks configured prototypes. */
  predicate ValidInput(c: Config, input: TickInput) {
    && input.meteorsToSpawn <= |input.picks|
    && forall p :: p in input.picks ==> p in c.meteors
  }

  /** Number of iterations of the spawn loop `for (i = 0; i < meteorsToSpawn; i++)`. */
  function SpawnCount(input: TickInput): nat {
    if input.meteorsToSpawn < 0 then 0 else input.meteorsToSpawn
  }

  /** The events of one wave: meteor `i` spawned from the `i`-th pick at `grid`. */
  function SpawnEvents(picks: seq<Proto>, n: nat, grid: GridId): (es: seq<Event>)
    requires n <= |picks|
    ensures |es| == n
    ensures forall i :: 0 <= i < n ==> es[i] == SpawnMeteor(picks[i], grid)
  {
    seq(n, i requires 0 <= i < n => SpawnMeteor(picks[i], grid))
  }

  // ---------------------------------------------------------------------------
  // Added
  // ---------------------------------------------------------------------------

  /** The announcements of `Added`: the text only if configured, the sound always. */
  function StartEvents(c: Config): (es: seq<Event>)
    ensures |es| == (if c.announcement.Some? then 2 else 1)
    ensures es[|es| - 1] == StartSound(c.announcementSound)
    ensures (exists t :: StartText(t) in es) <==> c.announcement.Some?
    ensures c.announcement.Some? ==> es[0] == StartText(c.announcement.value)
    ensures forall e :: e in es ==> e.StartText? || e.StartSound?
  {
    (if c.announcement.Some? then [StartText(c.announcement.value)] else []) + [StartSound(c.announcementSound)]
  }

  /** The state `Added` leaves: the drawn wave count and the first deadline `now + cooldown`. */
  function Activated(now: int, waves: int, cooldown: int): (s: SwarmState)
    ensures s.waveCounter == waves && s.nextWaveTime == now + cooldown
    ensures !s.ending && s.ruleActive
  {
    SwarmState(waves, now + cooldown, false, 0, true)
  }

  // ---------------------------------------------------------------------------
  // ActiveTick
  // ---------------------------------------------------------------------------

  /** The announcements of the finishing tick, then ForceEndSelf. */
  function EndEvents(c: Config): (es: seq<Event>)
    ensures |es| == (if c.endAnnouncement.Some? then 1 else 0) + (if c.endSound.Some? then 1 else 0) + 1
    ensures es[|es| - 1] == ForceEnd
    ensures multiset(es)[ForceEnd] == 1
    ensures c.endAnnouncement.Some? ==> es[0] == EndText(c.endAnnouncement.value)
    ensures c.endSound.Some? ==> es[|es| - 2] == EndSound(c.endSound.value)
    ensures (exists t :: EndText(t) in es) <==> c.endAnnouncement.Some?
    ensures (exists t :: EndSound(t) in es) <==> c.endSound.Some?
    ensures forall e :: e in es ==> e.EndText? || e.EndSound? || e.ForceEnd?
  {
    (if c.endAnnouncement.Some? then [EndText(c.endAnnouncement.value)] else [])
    + (if c.endSound.Some? then [EndSound(c.endSound.value)] else [])
    + [ForceEnd]
  }

  /** The tick changed nothing and called nothing. */
  predicate NoOp(s: SwarmState, r: TickResult) {
    r.state == s && r.events == []
  }

  predicate HasSpawn(es: seq<Event>) {
    exists e :: e in es && e.SpawnMeteor?
  }

  /** One `ActiveTick(now)`: what it does to the state and which calls it makes. */
  function Step(c: Config, s: SwarmState, input: TickInput): (r: TickResult)
    requires ValidInput(c, input)
    ensures r.state.waveCounter == s.waveCounter - (if r.outcome == Wave then 1 else 0)
    ensures s.ending ==> r.state.ending
    ensures !s.ending && r.state.ending ==> r.outcome == Wave
    ensures r.outcome == Finished <==> s.ruleActive && !r.state.ruleActive
    ensures r.outcome == Wave ==> !s.ending
  {
    if !s.ruleActive || input.deleted then
      TickResult(s, [], Guarded)
    else if s.ending then
      if input.now >= s.endSoundTime then
        TickResult(s.(ruleActive := false), EndEvents(c), Finished)
      else
        TickResult(s, [], EndWaiting)
    else if input.now < s.nextWaveTime then
      TickResult(s, [], Waiting)
    else
      var advanced := s.(nextWaveTime := s.nextWaveTime + input.cooldown);
      match input.target
      case NoStations => TickResult(advanced, [], Skipped)
      case NoGrid => TickResult(advanced, [], Skipped)
      case Found(grid) =>
        var counter := s.waveCounter - 1;
        var ends := counter <= 0;
        var next := advanced.(
          waveCounter := counter,
          ending := ends,
          endSoundTime := if ends then input.now + c.endDelay else s.endSoundTime);
        var spawns := SpawnEvents(input.picks, SpawnCount(input), grid);
        assert forall e :: e in spawns ==> e.SpawnMeteor? && e.proto in input.picks;
        TickResult(next, spawns, Wave)
  }

  /** Rule inactive or entity deleted: the tick changes nothing and calls nothing. */
  lemma StepGuarded(c: Config, s: SwarmState, input: TickInput)
    requires ValidInput(c, input)
    requires !s.ruleActive || input.deleted
    ensures NoOp(s, Step(c, s, input)) && Step(c, s, input).outcome == Guarded
  {
  }

  /**
   * While Ending holds no meteor spawns and WaveCounter and NextWaveTime are
   * kept; the tick finishes exactly when `now >= EndSoundTime`, making the end
   * calls and deactivating the rule, and otherwise does nothing.
   */
  lemma StepWhileEnding(c: Config, s: SwarmState, input: TickInput)
    requires ValidInput(c, input)
    requires s.ending && s.ruleActive && !input.deleted
    ensures var r := Step(c, s, input);
            && r.state.ending && !HasSpawn(r.events)
            && r.state.waveCounter == s.waveCounter && r.state.nextWaveTime == s.nextWaveTime
            && (r.outcome == Finished <==> input.now >= s.endSoundTime)
            && (r.outcome == Finished ==> r.events == EndEvents(c) && r.state == s.(ruleActive := false))
            && (r.outcome != Finished ==> NoOp(s, r))
  {
    var r := Step(c, s, input);
    if r.outcome == Finished {
      assert forall e :: e in r.events ==> !e.SpawnMeteor?;
    }
  }

  /** Before the next wave time a tick that is not ending does nothing. */
  lemma StepWaiting(c: Config, s: SwarmState, input: TickInput)
    requires ValidInput(c, input)
    requires s.ruleActive && !input.deleted && !s.ending && input.now < s.nextWaveTime
    ensures NoOp(s, Step(c, s, input)) && Step(c, s, input).outcome == Waiting
  {
  }

  /**
   * Once the wave time is reached the deadline advances by the fresh cooldown
   * (from the old deadline, not from `now`) whether or not a target is found;
   * without a station or grid nothing else changes and nothing is spawned.
   */
  lemma StepDeadlineReached(c: Config, s: SwarmState, input: TickInput)
    requires ValidInput(c, input)
    requires s.ruleActive && !input.deleted && !s.ending && input.now >= s.nextWaveTime
    ensures var r := Step(c, s, input);
            && r.state.nextWaveTime == s.nextWaveTime + input.cooldown
            && (r.outcome == Wave <==> input.target.Found?)
            && (!input.target.Found? ==>
                  r.outcome == Skipped && r.events == [] && r.state == s.(nextWaveTime := s.nextWaveTime + input.cooldown))
  {
  }

  /**
   * A wave spawns exactly the drawn number of meteors, each of a configured
   * prototype, at the found grid, decrements WaveCounter once, and switches
   * Ending on iff the counter reaches 0 or below, with EndSoundTime = now + EndDelay.
   */
  lemma StepWave(c: Config, s: SwarmState, input: TickInput)
    requires ValidInput(c, input)
    requires s.ruleActive && !input.deleted && !s.ending && input.now >= s.nextWaveTime
    requires input.target.Found?
    ensures var r := Step(c, s, input);
            && r.outcome == Wave
            && |r.events| == SpawnCount(input)
            && (forall i :: 0 <= i < |r.events| ==>
                  r.events[i] == SpawnMeteor(input.picks[i], input.target.grid) && input.picks[i] in c.meteors)
            && r.state.waveCounter == s.waveCounter - 1
            && (r.state.ending <==> s.waveCounter <= 1)
            && (r.state.ending ==> r.state.endSoundTime == input.now + c.endDelay)
            && (!r.state.ending ==> r.state.endSoundTime == s.endSoundTime)
            && r.state.ruleActive
  {
  }

  /** Only the finishing tick calls ForceEndSelf or makes an end announcement. */
  lemma StepEndCallsOnlyWhenFinished(c: Config, s: SwarmState, input: TickInput)
    requires ValidInput(c, input)
    ensures var r := Step(c, s, input);
            r.outcome != Finished ==>
              multiset(r.events)[ForceEnd] == 0
              && forall t :: multiset(r.events)[EndText(t)] == 0 && multiset(r.events)[EndSound(t)] == 0
  {
    var r := Step(c, s, input);
    if r.outcome != Finished {
      assert forall e :: e in r.events ==> e.SpawnMeteor?;
    }
  }

  // ---------------------------------------------------------------------------
  // Sequences of ticks
  // ---------------------------------------------------------------------------

  predicate ValidInputs(c: Config, inputs: seq<TickInput>) {
    forall k :: 0 <= k < |inputs| ==> ValidInput(c, inputs[k])
  }

  /** The combined effect of a sequence of ticks: final state, all calls, and how many ticks were waves and finishes. */
  datatype RunResult = RunResult(state: SwarmState, events: seq<Event>, waves: nat, finishes: nat)

  function Run(c: Config, s: SwarmState, inputs: seq<TickInput>): RunResult
    requires ValidInputs(c, inputs)
    decreases |inputs|
  {
    if inputs == [] then RunResult(s, [], 0, 0)
    else
      var r := Step(c, s, inputs[0]);
      var rest := Run(c, r.state, inputs[1..]);
      RunResult(rest.state, r.events + rest.events,
                (if r.outcome == Wave then 1 else 0) + rest.waves,
                (if r.outcome == Finished then 1 else 0) + rest.finishes)
  }

  /** Once the rule is no longer active, no tick changes anything or calls anything. */
  lemma {:induction false} InactiveRunIsNoOp(c: Config, s: SwarmState, inputs: seq<TickInput>)
    requires ValidInputs(c, inputs)
    requires !s.ruleActive
    ensures Run(c, s, inputs) == RunResult(s, [], 0, 0)
    decreases |inputs|
  {
    if inputs != [] {
      InactiveRunIsNoOp(c, s, inputs[1..]);
    }
  }

  /**
   * WaveCounter drops by exactly one per wave and never otherwise, so it is
   * non-increasing; Ending is never reset; once Ending holds no wave fires and
   * no meteor spawns.
   */
  lemma {:induction false} RunCounter(c: Config, s: SwarmState, inputs: seq<TickInput>)
    requires ValidInputs(c, inputs)
    ensures var r := Run(c, s, inputs);
            r.state.waveCounter == s.waveCounter - r.waves && r.state.waveCounter <= s.waveCounter
    ensures s.ending ==> var r := Run(c, s, inputs);
            r.state.ending && r.waves == 0 && !HasSpawn(r.events)
    decreases |inputs|
  {
    if inputs != [] {
      var r := Step(c, s, inputs[0]);
      RunCounter(c, r.state, inputs[1..]);
      var rest := Run(c, r.state, inputs[1..]);
      if s.ending {
        assert !HasSpawn(r.events) && !HasSpawn(rest.events);
        assert forall e :: e in r.events + rest.events ==> e in r.events || e in rest.events;
      }
    }
  }

  /**
   * The end is reached at most once over any sequence of ticks: at most one
   * finishing tick, none once the rule is inactive, and after it the rule is
   * inactive.
   */
  lemma {:induction false} FinishAtMostOnce(c: Config, s: SwarmState, inputs: seq<TickInput>)
    requires ValidInputs(c, inputs)
    ensures var r := Run(c, s, inputs);
            && r.finishes <= 1
            && (!s.ruleActive ==> r.finishes == 0)
            && (r.finishes == 1 ==> !r.state.ruleActive)
    decreases |inputs|
  {
    if inputs != [] {
      var step := Step(c, s, inputs[0]);
      if step.outcome == Finished {
        InactiveRunIsNoOp(c, step.state, inputs[1..]);
      } else {
        FinishAtMostOnce(c, step.state, inputs[1..]);
      }
    }
  }

  /**
   * ForceEndSelf is called once per finishing tick, and the end text and end
   * sound at most that often: with `FinishAtMostOnce`, each at most once.
   */
  lemma {:induction false} EndCallsPerFinish(c: Config, s: SwarmState, inputs: seq<TickInput>)
    requires ValidInputs(c, inputs)
    ensures var r := Run(c, s, inputs);
            && multiset(r.events)[ForceEnd] == r.finishes
            && (forall t :: multiset(r.events)[EndText(t)] <= r.finishes)
            && (forall t :: multiset(r.events)[EndSound(t)] <= r.finishes)
    decreases |inputs|
  {
    if inputs != [] {
      var step := Step(c, s, inputs[0]);
      var rest := Run(c, step.state, inputs[1..]);
      EndCallsPerFinish(c, step.state, inputs[1..]);
      StepEndCallsOnlyWhenFinished(c, s, inputs[0]);
      assert multiset(step.events + rest.events) == multiset(step.events) + multiset(rest.events);
      if step.outcome == Finished {
        EndEventsCounts(c);
      }
    }
  }

  /** The finishing tick's calls hold each end text and end sound at most once. */
  lemma EndEventsCounts(c: Config)
    ensures forall t :: multiset(EndEvents(c))[EndText(t)] <= 1 && multiset(EndEvents(c))[EndSound(t)] <= 1
  {
    var es := EndEvents(c);
    EndEventsDistinct(c);
    forall t ensures multiset(es)[EndText(t)] <= 1 && multiset(es)[EndSound(t)] <= 1 {
      MultisetCountAtMostOne(es, EndText(t));
      MultisetCountAtMostOne(es, EndSound(t));
    }
  }

  /** No element occurs twice in `es`. */
  predicate Distinct(es: seq<Event>) {
    forall i, j :: 0 <= i < j < |es| ==> es[i] != es[j]
  }

  /** The end calls are pairwise different: they are of different kinds. */
  lemma EndEventsDistinct(c: Config)
    ensures Distinct(EndEvents(c))
  {
    var es := EndEvents(c);
    forall i, j | 0 <= i < j < |es| ensures es[i] != es[j] {
      assert es[i].EndText? ==> i == 0;
      assert es[j].ForceEnd? <==> j == |es| - 1;
    }
  }

  /** In a sequence whose elements appear at most once each, every count is at most one. */
  lemma {:induction false} MultisetCountAtMostOne(es: seq<Event>, e: Event)
    requires Distinct(es)
    ensures multiset(es)[e] <= 1
    decreases |es|
  {
    if |es| > 0 {
      var tail := es[1..];
      assert es == [es[0]] + tail;
      assert Distinct(tail) by {
        forall i, j | 0 <= i < j < |tail| ensures tail[i] != tail[j] {
          assert tail[i] == es[i + 1] && tail[j] == es[j + 1];
        }
      }
      MultisetCountAtMostOne(tail, e);
      if es[0] == e {
        assert e !in tail by {
          forall k | 0 <= k < |tail| ensures tail[k] != e {
            assert tail[k] == es[k + 1];
          }
        }
      }
    }
  }

  /** Max(1, waves): the number of waves a swarm that starts with `waves` fires. */
  function WavesToFire(waves: int): (n: nat)
    ensures n >= 1 && n >= waves
  {
    if waves <= 1 then 1 else waves
  }

  /** After `fired` waves of a swarm drawn with `waves`: the counter and Ending agree with it. */
  predicate Progress(waves: int, s: SwarmState, fired: nat) {
    && s.waveCounter == waves - fired
    && fired <= WavesToFire(waves)
    && (s.ending <==> fired == WavesToFire(waves))
  }

  /**
   * From activation on, Ending switches on exactly at the wave that makes the
   * counter reach 0 or below, that is after `WavesToFire(waves)` waves and so
   * after at least one; the end is announced only after that.
   */
  lemma {:induction false} RunFromProgress(c: Config, waves: int, s: SwarmState, fired: nat, inputs: seq<TickInput>)
    requires ValidInputs(c, inputs)
    requires Progress(waves, s, fired)
    ensures var r := Run(c, s, inputs);
            Progress(waves, r.state, fired + r.waves)
            && (r.finishes > 0 ==> fired + r.waves == WavesToFire(waves))
    decreases |inputs|
  {
    if inputs != [] {
      var step := Step(c, s, inputs[0]);
      var fired' := fired + (if step.outcome == Wave then 1 else 0);
      assert Progress(waves, step.state, fired');
      RunFromProgress(c, waves, step.state, fired', inputs[1..]);
      RunCounter(c, step.state, inputs[1..]);
    }
  }

  lemma RunFromActivation(c: Config, now: int, waves: int, cooldown: int, inputs: seq<TickInput>)
    requires ValidInputs(c, inputs)
    ensures var r := Run(c, Activated(now, waves, cooldown), inputs);
            && r.state.waveCounter == waves - r.waves
            && (r.state.ending <==> r.waves == WavesToFire(waves))
            && r.waves <= WavesToFire(waves)
            && (r.finishes > 0 ==> r.waves == WavesToFire(waves) && r.waves >= 1)
  {
    RunFromProgress(c, waves, Activated(now, waves, cooldown), 0, inputs);
  }

  /** The scenario of two waves of three meteors ten ticks apart and an end delay of 60. */
  lemma TwoWaveScenario(c: Config, g: GridId, p: Proto)
    requires c.endDelay == 60 && c.meteors == [p]
    requires c.endAnnouncement.None? && c.endSound.None?
    ensures var s0 := Activated(0, 2, 10);
            var t10 := Step(c, s0, TickInput(10, false, 10, Found(g), 3, [p, p, p]));
            var t20 := Step(c, t10.state, TickInput(20, false, 10, Found(g), 3, [p, p, p]));
            var t79 := Step(c, t20.state, TickInput(79, false, 10, Found(g), 3, [p, p, p]));
            var t80 := Step(c, t79.state, TickInput(80, false, 10, Found(g), 3, [p, p, p]));
            && s0.nextWaveTime == 10
            && |t10.events| == 3 && t10.state.waveCounter == 1 && t10.state.nextWaveTime == 20
            && |t20.events| == 3 && t20.state.waveCounter == 0 && t20.state.ending
            && t20.state.endSoundTime == 80
            && t79.outcome == EndWaiting && t79.state == t20.state && t79.events == []
            && t80.outcome == Finished && t80.events == [ForceEnd] && !t80.state.ruleActive
  {
  }

  /** The spawn loop of a wave: meteor `i` of `n` is spawned from the `i`-th pick at `grid`. */
  method SpawnWave(picks: seq<Proto>, n: nat, grid: GridId) returns (spawned: seq<Event>)
    requires n <= |picks|
    ensures spawned == SpawnEvents(picks, n, grid)
  {
    spawned := [];
    for i := 0 to n
      invariant spawned == SpawnEvents(picks, i, grid)
    {
      spawned := spawned + [SpawnMeteor(picks[i], grid)];
    }
  }

  // ---------------------------------------------------------------------------
  // The system acting on one component
  // ---------------------------------------------------------------------------

  /** A meteor-swarm game rule entity with its component, as the system updates it in place. */
  class MeteorSwarmRule {
    const config: Config
    var waveCounter: int
    var nextWaveTime: int
    var ending: bool
    var endSoundTime: int
    var ruleActive: bool
    /** The calls made to the host services so far, oldest first. */
    var events: seq<Event>

    function State(): SwarmState
      reads this
    {
      SwarmState(waveCounter, nextWaveTime, ending, endSoundTime, ruleActive)
    }

    /** `Added`: the rule is added and started with the drawn wave count and first cooldown. */
    constructor Added(config: Config, now: int, waves: int, cooldown: int)
      ensures this.config == config
      ensures State() == Activated(now, waves, cooldown)
      ensures events == StartEvents(config)
    {
      this.config := config;
      waveCounter := waves;
      nextWaveTime := now + cooldown;
      ending := false;
      endSoundTime := 0;
      ruleActive := true;
      var announced: seq<Event> := [];
      if config.announcement.Some? {
        announced := announced + [StartText(config.announcement.value)];
      }
      announced := announced + [StartSound(config.announcementSound)];
      events := announced;
    }

    /** `ActiveTick`: one scheduling step at time `input.now`. */
    method ActiveTick(input: TickInput)
      requires ValidInput(config, input)
      modifies this
      ensures State() == Step(config, old(State()), input).state
      ensures events == old(events) + Step(config, old(State()), input).events
    {
      ghost var r := Step(config, State(), input);
      if !ruleActive || input.deleted {
        return;
      }
      if ending {
        if input.now >= endSoundTime {
          var finale: seq<Event> := [];
          if config.endAnnouncement.Some? {
            finale := finale + [EndText(config.endAnnouncement.value)];
          }
          if config.endSound.Some? {
            finale := finale + [EndSound(config.endSound.value)];
          }
          // ForceEndSelf
          finale := finale + [ForceEnd];
          assert finale == r.events;
          events := events + finale;
          ruleActive := false;
        }
        return;
      }
      if input.now < nextWaveTime {
        return;
      }
      nextWaveTime := nextWaveTime + input.cooldown;
      if input.target.NoStations? || input.target.NoGrid? {
        return;
      }
      var spawned := SpawnWave(input.picks, SpawnCount(input), input.target.grid);
      assert r.events == spawned;
      events := events + spawned;
      waveCounter := waveCounter - 1;
      if waveCounter <= 0 {
        ending := true;
        endSoundTime := input.now + config.endDelay;
      }
    }
  }
}
