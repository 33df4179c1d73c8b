/** What each host of the system goes through, and when a start that the network
    delivers is admitted. */
module SystemRuns {
  import opened Execution
  import opened Fencing
  import Admission
  import H = ProcessorHost

  /** What an event of the system is to this lane's host, if anything. */
  ghost function AtHost(e: Event, lane: Lane): seq<H.Event> {
    match e
    case Coordinate(_) => []
    case DeliverStart(identity, hostNow, phases, outcome) =>
      if identity.lane == lane then [H.Start(identity, hostNow, phases, outcome)] else []
    case DeliverStop(identity, phases) => if identity.lane == lane then [H.Stop(identity, phases)] else []
    case DeliverDelete(l, phases) => if l == lane then [H.Delete(phases)] else []
    case HostFinish(l, identity, phases) => if l == lane then [H.Finish(identity, phases)] else []
    case HostExit(l) => if l == lane then [H.ContainerExit] else []
  }

  ghost function HostEvents(events: seq<Event>, lane: Lane): seq<H.Event> {
    if events == [] then []
    else HostEvents(events[..|events| - 1], lane) + AtHost(events[|events| - 1], lane)
  }

  lemma HostMoves(s: System, e: Event, lane: Lane)
    ensures var own := AtHost(e, lane);
            Host(Step(s, e), lane) == if own == [] then Host(s, lane) else H.Step(Host(s, lane), own[0])
  {}

  lemma RunExtends(hs: seq<H.HostState>, he: seq<H.Event>, e: H.Event)
    requires H.IsRun(hs, he)
    ensures H.IsRun(hs + [H.Step(hs[|hs| - 1], e)], he + [e])
  {}

  /** Each host goes through a run of its own, made of the events that concern it. */
  lemma {:induction false} HostRun(states: seq<System>, events: seq<Event>, lane: Lane, n: nat)
    returns (hs: seq<H.HostState>)
    requires IsRun(states, events) && n <= |events|
    ensures H.IsRun(hs, HostEvents(events[..n], lane)) && hs[|hs| - 1] == Host(states[n], lane)
  {
    if n == 0 {
      hs := [H.FRESH_HOST];
    } else {
      hs := HostRun(states, events, lane, n - 1);
      var own := AtHost(events[n - 1], lane);
      HostMoves(states[n - 1], events[n - 1], lane);
      assert events[..n][..n - 1] == events[..n - 1];
      if own != [] {
        RunExtends(hs, HostEvents(events[..n - 1], lane), own[0]);
        hs := hs + [H.Step(hs[|hs| - 1], own[0])];
      }
    }
  }

  lemma {:induction false} GenerationsArePositive(states: seq<System>, events: seq<Event>, n: nat, identity: Identity)
    requires IsRun(states, events) && n < |states|
    ensures states[n].coordinator.counter >= 0
    ensures identity in states[n].started ==> identity.generation > 0
  {
    if n > 0 {
      GenerationsArePositive(states, events, n - 1, identity);
      assert states[n] == Step(states[n - 1], events[n - 1]);
    }
  }

  /** A start delivered to its host, once or again, is admitted exactly when it has
      not expired by the host's clock and, among the events that reached this host
      before, none fenced a deletion, no stop and no admission was of this or a
      later generation, and every execution admitted was settled. */
  lemma DeliveredStartIff(states: seq<System>, events: seq<Event>, n: nat)
    returns (hs: seq<H.HostState>)
    requires IsRun(states, events) && n < |events| && events[n].DeliverStart? && events[n].phases >= 2
    ensures var e := events[n];
            var own := HostEvents(events[..n], e.identity.lane);
            var start := H.Start(e.identity, e.hostNow, e.phases, e.outcome);
            && H.IsRun(hs, own + [start]) && hs[|own|] == Host(states[n], e.identity.lane)
            && (H.Admits(Host(states[n], e.identity.lane), start) <==>
                  && e.hostNow < e.identity.expiresAt
                  && Admission.WayIsClear(hs, own + [start], |own|, e.identity.generation))
  {
    var e := events[n];
    var own := HostEvents(events[..n], e.identity.lane);
    var start := H.Start(e.identity, e.hostNow, e.phases, e.outcome);
    var before := HostRun(states, events, e.identity.lane, n);
    RunExtends(before, own, start);
    hs := before + [H.Step(before[|before| - 1], start)];
    GenerationsArePositive(states, events, n, e.identity);
    Admission.AdmittedIff(hs, own + [start], |own|);
  }
}
