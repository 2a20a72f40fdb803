/**
  The speech-synthesis engine selection: the local VOICEVOX container
  controller (`controlContainer` and the module flag `isContainerRunning`),
  the tier choice in `generateVoicevoxAudio`, and the startup check of the
  `ready` handler. Every HTTP call is replaced by its outcome, given as input.
 */
module Engine {
  import opened Wrappers

  /** How the Docker socket answered a start or stop request. */
  datatype DockerOutcome = Ok | NotModified304 | OtherError

  /** The two requests the controller knows. */
  datatype Action = Start | Stop

  /** The action a `controlContainer` argument names, if any: every other
      string is ignored by the controller. */
  function ParseAction(name: string): (r: Option<Action>)
    ensures r == Some(Start) <==> name == "start"
    ensures r == Some(Stop) <==> name == "stop"
  {
    if name == "start" then Some(Start)
    else if name == "stop" then Some(Stop)
    else None
  }

  /** What one `controlContainer(action)` call did: whether it posted to the
      Docker socket, the new value of the flag, and whether it then waited the
      five seconds the engine needs to come up. */
  datatype ControlEffect = ControlEffect(issued: bool, running: bool, waited: bool)

  /** One `controlContainer(action)` call when the flag reads `running`. */
  function ControlStep(running: bool, action: Action, outcome: DockerOutcome): (e: ControlEffect)
    ensures e.issued <==> (action == Start && !running) || (action == Stop && running)
    ensures e.issued && outcome != OtherError ==> e.running == (action == Start)
    ensures !e.issued || outcome == OtherError ==> e.running == running
    ensures e.waited <==> e.issued && action == Start && outcome == Ok
  {
    if action == Start && running then ControlEffect(false, running, false)
    else if action == Stop && !running then ControlEffect(false, running, false)
    else match outcome
      case Ok => ControlEffect(true, action == Start, action == Start)
      case NotModified304 => ControlEffect(true, action == Start, false)
      case OtherError => ControlEffect(true, running, false)
  }

  /** Repeating a call that did not fail is a no-op: the flag already says the
      container is in the requested state. */
  lemma ControlIdempotent(running: bool, action: Action, first: DockerOutcome, second: DockerOutcome)
    requires first != OtherError
    ensures var e1 := ControlStep(running, action, first);
      var e2 := ControlStep(e1.running, action, second);
      !e2.issued && e2.running == e1.running
  {
  }

  /** One outside call of `generateVoicevoxAudio`, as it appears in the trace:
      a stop or start request to the Docker socket, the external service, or
      the local engine's query and synthesis requests. */
  datatype Step = StopCall | StartCall | ExternalCall | LocalQuery | LocalSynthesis

  /** What `generateVoicevoxAudio` gives back: the external service's stream,
      the local engine's stream, or the thrown "failed on both" error. */
  datatype Synth = ExternalStream | LocalStream | Failed

  /** The outcome of every outside call the router may make. */
  datatype Backends = Backends(
    stop: DockerOutcome,
    externalOk: bool,
    start: DockerOutcome,
    queryOk: bool,
    synthesisOk: bool)

  /** The Docker requests recorded in a trace, in the order the router makes
      them: a stop always comes before a start. */
  function DockerActions(trace: seq<Step>): seq<Action> {
    (if StopCall in trace then [Stop] else []) +
    (if StartCall in trace then [Start] else [])
  }

  /** A trace whose first part makes no start and whose second part makes no
      stop records the Docker requests of both parts in turn. */
  lemma DockerActionsSplit(first: seq<Step>, second: seq<Step>)
    requires StartCall !in first && StopCall !in second
    ensures DockerActions(first + second) == DockerActions(first) + DockerActions(second)
  {
    assert StopCall in first + second <==> StopCall in first;
    assert StartCall in first + second <==> StartCall in second;
  }

  datatype Routing = Routing(result: Synth, trace: seq<Step>, running: bool)

  /** The local fallback: make sure the container runs, then query and
      synthesise. */
  function LocalPath(running: bool, b: Backends): Routing {
    var s2 := ControlStep(running, Start, b.start);
    var t := (if s2.issued then [StartCall] else []) + [LocalQuery];
    Routing(if b.queryOk && b.synthesisOk then LocalStream else Failed,
            t + (if b.queryOk then [LocalSynthesis] else []), s2.running)
  }

  /** The local path always queries, synthesises only after a good query,
      starts the engine exactly when the flag says it is down, and never stops
      it or calls the external service. A failed start is swallowed. */
  lemma LocalPathFacts(running: bool, b: Backends)
    ensures var r := LocalPath(running, b);
      && r.result != ExternalStream
      && (r.result == LocalStream <==> b.queryOk && b.synthesisOk)
      && LocalQuery in r.trace && (b.queryOk <==> LocalSynthesis in r.trace)
      && ExternalCall !in r.trace && StopCall !in r.trace
      && (StartCall in r.trace <==> !running)
  {
    var s2 := ControlStep(running, Start, b.start);
    var t := (if s2.issued then [StartCall] else []) + [LocalQuery];
    var t' := t + (if b.queryOk then [LocalSynthesis] else []);
    assert t'[|t| - 1] == LocalQuery;
    assert LocalPath(running, b).trace == t';
  }

  /** Points are known and below the 1000-point threshold. */
  predicate LowPoints(points: Option<int>) {
    points.Some? && points.value < 1000
  }

  /** Points are known and at least 1000: the engine is stopped if it runs. */
  predicate HighPoints(points: Option<int>) {
    points.Some? && points.value >= 1000
  }

  /** `generateVoicevoxAudio` when the flag reads `running` and the points
      query returned `points` (`None` when it failed). The stop that the source
      does not await is taken to finish before the external attempt. */
  function Route(running: bool, points: Option<int>, b: Backends): Routing {
    var s1 := if HighPoints(points) then ControlStep(running, Stop, b.stop) else ControlEffect(false, running, false);
    var t1 := if s1.issued then [StopCall] else [];
    if !LowPoints(points) && b.externalOk then
      Routing(ExternalStream, t1 + [ExternalCall], s1.running)
    else
      var l := LocalPath(s1.running, b);
      Routing(l.result, t1 + (if LowPoints(points) then [] else [ExternalCall]) + l.trace, l.running)
  }

  /** With low points only the local engine is used. */
  lemma RouteLowPointsLocal(running: bool, points: Option<int>, b: Backends)
    requires LowPoints(points)
    ensures var r := Route(running, points, b);
      ExternalCall !in r.trace && StopCall !in r.trace && LocalQuery in r.trace
  {
    LocalPathFacts(running, b);
  }

  /** Otherwise the external service is tried first, after stopping a running
      engine when the points are known to be at least 1000. */
  lemma RouteExternalFirst(running: bool, points: Option<int>, b: Backends)
    requires !LowPoints(points)
    ensures var r := Route(running, points, b);
      var stopped := HighPoints(points) && running;
      var t := (if stopped then [StopCall] else []) + [ExternalCall];
      |t| <= |r.trace| && r.trace[..|t|] == t &&
      (StopCall in r.trace <==> stopped)
  {
    var r := Route(running, points, b);
    var stopped := HighPoints(points) && running;
    var s1 := if HighPoints(points) then ControlStep(running, Stop, b.stop) else ControlEffect(false, running, false);
    assert s1.issued == stopped;
    var t := (if stopped then [StopCall] else []) + [ExternalCall];
    if b.externalOk {
      assert r.trace == t;
    } else {
      var l := LocalPath(s1.running, b);
      LocalPathFacts(s1.running, b);
      assert r.trace == t + l.trace;
      assert r.trace[..|t|] == t;
    }
  }

  /** Which tier answers: the external service whenever it is tried and
      succeeds, the local engine when it is reached and both of its calls
      succeed, nothing otherwise. The local engine is reached exactly when the
      external service gives no stream. */
  lemma RouteResult(running: bool, points: Option<int>, b: Backends)
    ensures var r := Route(running, points, b);
      && (r.result == ExternalStream <==> !LowPoints(points) && b.externalOk)
      && (r.result == ExternalStream ==> LocalQuery !in r.trace && StartCall !in r.trace)
      && (r.result != ExternalStream ==> LocalQuery in r.trace)
      && (r.result == LocalStream <==> (LowPoints(points) || !b.externalOk) && b.queryOk && b.synthesisOk)
  {
    var s1 := if HighPoints(points) then ControlStep(running, Stop, b.stop) else ControlEffect(false, running, false);
    var t1 := if s1.issued then [StopCall] else [];
    if !(!LowPoints(points) && b.externalOk) {
      var t2 := t1 + (if LowPoints(points) then [] else [ExternalCall]);
      LocalPathFacts(s1.running, b);
      assert LocalQuery in t2 + LocalPath(s1.running, b).trace;
    }
  }

  /** Whatever the Docker socket answered, a start that precedes the local
      attempt leaves the queries in place: a failed start is swallowed. */
  lemma FailedStartSwallowed(running: bool, points: Option<int>, b: Backends)
    requires b.start == OtherError
    requires LowPoints(points) || !b.externalOk
    ensures var r := Route(running, points, b);
      LocalQuery in r.trace && (b.queryOk ==> LocalSynthesis in r.trace)
  {
    var s1 := if HighPoints(points) then ControlStep(running, Stop, b.stop) else ControlEffect(false, running, false);
    var t1 := if s1.issued then [StopCall] else [];
    var t2 := t1 + (if LowPoints(points) then [] else [ExternalCall]);
    LocalPathFacts(s1.running, b);
    var l := LocalPath(s1.running, b);
    assert Route(running, points, b).trace == t2 + l.trace;
  }

  /** The startup check: stop the local engine when more than 1000 points are
      known to be left. */
  function StartupCheck(running: bool, points: Option<int>, outcome: DockerOutcome): (e: ControlEffect)
    ensures e.issued <==> points.Some? && points.value > 1000 && running
  {
    if points.Some? && points.value > 1000 then ControlStep(running, Stop, outcome)
    else ControlEffect(false, running, false)
  }

  /** The router stops a running engine from 1000 points on, the startup check
      only above 1000: the two disagree at exactly 1000 points and nowhere else. */
  lemma ThresholdsDifferOnlyAt1000(p: int, b: Backends, outcome: DockerOutcome)
    ensures (StopCall in Route(true, Some(p), b).trace) != StartupCheck(true, Some(p), outcome).issued
        <==> p == 1000
  {
    if p < 1000 {
      RouteLowPointsLocal(true, Some(p), b);
    } else {
      RouteExternalFirst(true, Some(p), b);
    }
  }

  /** The module flag `isContainerRunning` and the Docker requests made so far. */
  class Controller {
    var running: bool
    var dockerCalls: seq<Action>

    /** The flag starts out `true`: the engine is assumed up until checked. */
    constructor ()
      ensures running && dockerCalls == []
    {
      running := true;
      dockerCalls := [];
    }

    /** `controlContainer(action)`; `outcome` is what the Docker socket answers
        if a request is made. */
    method ControlContainer(action: string, outcome: DockerOutcome) returns (waited: bool)
      modifies this
      ensures ParseAction(action).None? ==>
        running == old(running) && !waited && dockerCalls == old(dockerCalls)
      ensures ParseAction(action).Some? ==>
        var a := ParseAction(action).value;
        var e := ControlStep(old(running), a, outcome);
        running == e.running && waited == e.waited &&
        dockerCalls == old(dockerCalls) + (if e.issued then [a] else [])
    {
      waited := false;
      if action != "start" && action != "stop" { return; }
      if action == "start" && running { return; }
      if action == "stop" && !running { return; }
      var a := if action == "start" then Start else Stop;
      dockerCalls := dockerCalls + [a];
      match outcome {
        case Ok =>
          running := action == "start";
          if action == "start" {
            waited := true;
          }
        case NotModified304 =>
          running := action == "start";
        case OtherError =>
      }
    }

    /** `generateVoicevoxAudio`: the chosen tier, with every outside call it made. */
    method GenerateAudio(points: Option<int>, b: Backends) returns (result: Synth, trace: seq<Step>)
      modifies this
      ensures var r := Route(old(running), points, b);
        result == r.result && trace == r.trace && running == r.running
      ensures dockerCalls == old(dockerCalls) + DockerActions(trace)
    {
      var useLocal := false;
      trace := [];
      if points.Some? {
        if points.value < 1000 {
          useLocal := true;
        } else if running {
          assert ParseAction("stop") == Some(Stop);
          var _ := ControlContainer("stop", b.stop);
          trace := [StopCall];
        }
      }
      assert dockerCalls == old(dockerCalls) + DockerActions(trace);
      if !useLocal {
        ghost var before := trace;
        trace := trace + [ExternalCall];
        assert DockerActions(trace) == DockerActions(before);
        if b.externalOk {
          result := ExternalStream;
          return;
        }
        useLocal := true;
      }
      var prefix := trace;
      var steps;
      result, steps := LocalFallback(b);
      trace := prefix + steps;
      DockerActionsSplit(prefix, steps);
    }

    /** Step 3 of `generateVoicevoxAudio`. */
    method LocalFallback(b: Backends) returns (result: Synth, steps: seq<Step>)
      modifies this
      ensures var l := LocalPath(old(running), b);
        result == l.result && steps == l.trace && running == l.running
      ensures dockerCalls == old(dockerCalls) + DockerActions(steps)
    {
      steps := [];
      var wasRunning := running;
      assert ParseAction("start") == Some(Start);
      var _ := ControlContainer("start", b.start);
      if !wasRunning {
        steps := steps + [StartCall];
      }
      steps := steps + [LocalQuery];
      if !b.queryOk {
        result := Failed;
        return;
      }
      steps := steps + [LocalSynthesis];
      result := if b.synthesisOk then LocalStream else Failed;
    }

    /** The `ready` handler's check. */
    method Startup(points: Option<int>, outcome: DockerOutcome)
      modifies this
      ensures var e := StartupCheck(old(running), points, outcome);
        running == e.running && dockerCalls == old(dockerCalls) + (if e.issued then [Stop] else [])
    {
      if points.Some? && points.value > 1000 {
        var _ := ControlContainer("stop", outcome);
      }
    }
  }
}
