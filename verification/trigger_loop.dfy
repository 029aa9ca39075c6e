/** The per-trigger debounce loop (`run_trigger` and `get_edge` in
    `src/trigger.rs`). One pass of the loop is a pure function from the
    trigger's delay, the clock reading and the answers of the two edge
    queries to the trace of what the pass does: edge queries, sleeps, and
    the firing of the action. The edge detector and the clock are inputs. */
module TriggerLoop {
  import opened Prelude
  import opened Config
  import opened Interpolation
  import opened Actions

  /** Seconds slept after an error. */
  const ERROR_DELAY: u64 := 15

  /** How much further back than the delay the edge detector looks. */
  const LOOKBACK_MARGIN: u64 := 60

  /** `since(time)`: the seconds from `time` until `now`, never negative. */
  function Since(now: u64, time: u64): (r: u64)
    ensures time <= now ==> time + r == now
    ensures time > now ==> r == 0
  {
    SaturatingSub(now, time)
  }

  /** How long the loop waits before re-checking an edge that is `elapsed`
      seconds old: until the edge is `delay` seconds old. */
  function WaitBeforeVerify(delay: u64, elapsed: u64): (wait: u64)
    ensures wait <= delay
    ensures wait == 0 <==> elapsed >= delay
    ensures wait > 0 ==> wait + elapsed == delay
  {
    SaturatingSub(delay, elapsed)
  }

  /** The lookback handed to the edge detector, `delay + 60` computed in
      `u64` (wrapping, as a release build does). */
  function Lookback(delay: u64): (r: u64)
    ensures delay + LOOKBACK_MARGIN < U64_LIMIT ==> r == delay + LOOKBACK_MARGIN
    ensures delay + LOOKBACK_MARGIN >= U64_LIMIT ==> r < LOOKBACK_MARGIN
  {
    WrappingAdd(delay, LOOKBACK_MARGIN)
  }

  /** The arguments of one edge-detector call. */
  datatype EdgeQuery = EdgeQuery(query: string, from: u64, to: u64, lookback: u64)

  /** The arguments `get_edge` passes to the edge detector, or the error of
      interpolating the condition's query. */
  function EdgeRequest(c: Condition, delay: u64, env: Env): (r: Result<EdgeQuery, ParameterError>)
    ensures r.Success? <==> AllResolve(c.params, env)
    ensures r.Success? ==>
      Interpolate(c.query, c.params, env) == Success(r.value.query)
      && r.value.from == c.from && r.value.to == c.to && r.value.lookback == Lookback(delay)
    ensures r.Failure? ==> Interpolate(c.query, c.params, env) == Failure(r.error)
  {
    match Interpolate(c.query, c.params, env)
    case Failure(e) => Failure(e)
    case Success(query) => Success(EdgeQuery(query, c.from, c.to, Lookback(delay)))
  }

  /** What the edge detector answers. */
  datatype DetectorReply = DetectorFailed | NoEdgeFound | LastEdge(time: u64)

  /** What `get_edge` returns: an error, no edge, or the time of the last
      edge. */
  datatype EdgeReply = QueryFailed(error: TriggerError) | NoEdge | Edge(at: u64)

  /** `get_edge`: interpolate the query, then ask the detector. */
  function GetEdge(c: Condition, delay: u64, env: Env, detector: EdgeQuery -> DetectorReply): (r: EdgeReply)
    ensures !AllResolve(c.params, env) ==> r == QueryFailed(ParameterFailed(Interpolate(c.query, c.params, env).error))
    ensures AllResolve(c.params, env) ==>
      var answer := detector(EdgeRequest(c, delay, env).value);
      && (r.QueryFailed? <==> answer.DetectorFailed?)
      && (r.QueryFailed? ==> r.error == EdgeFailed)
      && (r.NoEdge? <==> answer.NoEdgeFound?)
      && (r.Edge? <==> answer.LastEdge?)
      && (r.Edge? ==> r.at == answer.time)
  {
    match EdgeRequest(c, delay, env)
    case Failure(e) => QueryFailed(ParameterFailed(e))
    case Success(q) =>
      match detector(q)
      case DetectorFailed => QueryFailed(EdgeFailed)
      case NoEdgeFound => NoEdge
      case LastEdge(t) => Edge(t)
  }

  /** What one pass of the loop does, in order. `CheckEdge` is a call of
      `get_edge`; `Fire` is a call of `run_action`, whose result is only
      logged. */
  datatype Effect = CheckEdge | Sleep(seconds: u64) | Fire

  /** One pass of the `loop` in `run_trigger`. `first` answers the first
      query; `verify` answers the verification query, which is made only
      when the first found an edge. */
  function Iterate(delay: u64, now: u64, first: EdgeReply, verify: EdgeReply): (trace: seq<Effect>)
    ensures |trace| > 0 && trace[0] == CheckEdge
    ensures Fire in trace <==> first.Edge? && verify == Edge(first.at)
  {
    match first
    case Edge(edge) =>
      var wait := WaitBeforeVerify(delay, Since(now, edge));
      [CheckEdge, Sleep(wait), CheckEdge]
      + (match verify
         case Edge(newEdge) => if newEdge == edge then [Fire, Sleep(delay)] else []
         case QueryFailed(_) => [Sleep(ERROR_DELAY)]
         case NoEdge => [])
    case NoEdge => [CheckEdge, Sleep(delay)]
    case QueryFailed(_) => [CheckEdge, Sleep(ERROR_DELAY)]
  }

  /** The action fires only when the verification query returns the edge
      first found, and then the loop sleeps exactly `delay`; the action's
      own success or failure plays no part. */
  lemma FiresOnlyOnConfirmedEdge(delay: u64, now: u64, first: EdgeReply, verify: EdgeReply)
    ensures first.Edge? && verify == Edge(first.at) ==>
      Iterate(delay, now, first, verify)
        == [CheckEdge, Sleep(WaitBeforeVerify(delay, Since(now, first.at))), CheckEdge, Fire, Sleep(delay)]
    ensures !(first.Edge? && verify == Edge(first.at)) ==> Fire !in Iterate(delay, now, first, verify)
  {
  }

  /** An edge that is gone or superseded at verification is dropped: no
      action, and the next pass starts without sleeping. */
  lemma InvalidatedEdgeRestartsAtOnce(delay: u64, now: u64, edge: u64, verify: EdgeReply)
    requires verify.NoEdge? || (verify.Edge? && verify.at != edge)
    ensures Iterate(delay, now, Edge(edge), verify)
      == [CheckEdge, Sleep(WaitBeforeVerify(delay, Since(now, edge))), CheckEdge]
  {
  }

  /** A failed query, first or verification, means no action and a 15 second
      sleep to end the pass. */
  lemma ErrorsBackOff(delay: u64, now: u64, first: EdgeReply, verify: EdgeReply)
    requires first.QueryFailed? || (first.Edge? && verify.QueryFailed?)
    ensures var trace := Iterate(delay, now, first, verify);
      Fire !in trace && trace[|trace| - 1] == Sleep(ERROR_DELAY)
    ensures first.QueryFailed? ==> Iterate(delay, now, first, verify) == [CheckEdge, Sleep(ERROR_DELAY)]
  {
  }

  /** No edge at the first query: no verification query, no action, and a
      sleep of `delay`. */
  lemma NoEdgeWaitsDelay(delay: u64, now: u64, verify: EdgeReply)
    ensures Iterate(delay, now, NoEdge, verify) == [CheckEdge, Sleep(delay)]
  {
  }

  /** The verification answer matters only when the first query found an
      edge: otherwise it is never asked for. */
  lemma VerifyOnlyAfterEdge(delay: u64, now: u64, first: EdgeReply, verify1: EdgeReply, verify2: EdgeReply)
    requires !first.Edge?
    ensures Iterate(delay, now, first, verify1) == Iterate(delay, now, first, verify2)
    ensures multiset(Iterate(delay, now, first, verify1))[CheckEdge] == 1
  {
  }

  /** The debounce rule: the verification query is made once the edge is at
      least `delay` old, and no later than that when it was younger; an edge
      already `delay` old is re-checked without waiting. An edge stamped
      after the local clock counts as 0 s old, so it is re-checked after
      `delay`, before it is `delay` old by its own stamp. */
  lemma DebounceWindow(delay: u64, now: u64, edge: u64)
    ensures edge <= now ==>
      var wait := WaitBeforeVerify(delay, Since(now, edge));
      && now + wait - edge >= delay
      && (now - edge < delay ==> now + wait - edge == delay)
      && (now - edge >= delay ==> wait == 0)
    ensures now < edge ==>
      var wait := WaitBeforeVerify(delay, Since(now, edge));
      wait == delay && now + wait - edge < delay
  {
  }

  /** A delay of 120 s and an edge 30 s old: wait 90 s, re-check, fire,
      cool down for 120 s. */
  lemma DebounceScenario(now: u64)
    requires now >= 30
    ensures Iterate(120, now, Edge(now - 30), Edge(now - 30))
      == [CheckEdge, Sleep(90), CheckEdge, Fire, Sleep(120)]
  {
  }

  /** One pass of the loop for a whole trigger, with the edge detector and
      the parameter environment of each of the two queries as inputs. The
      action fires exactly when both queries resolve their parameters and
      the detector reports the same last edge twice. */
  function RunTriggerIteration(
    t: Trigger, now: u64,
    env1: Env, detector1: EdgeQuery -> DetectorReply,
    env2: Env, detector2: EdgeQuery -> DetectorReply): (trace: seq<Effect>)
    ensures Fire in trace <==>
      && AllResolve(t.condition.params, env1)
      && AllResolve(t.condition.params, env2)
      && detector1(EdgeRequest(t.condition, t.delay, env1).value).LastEdge?
      && detector2(EdgeRequest(t.condition, t.delay, env2).value)
         == LastEdge(detector1(EdgeRequest(t.condition, t.delay, env1).value).time)
    ensures Fire in trace ==>
      var edge := detector1(EdgeRequest(t.condition, t.delay, env1).value).time;
      trace == [CheckEdge, Sleep(WaitBeforeVerify(t.delay, Since(now, edge))), CheckEdge, Fire, Sleep(t.delay)]
    ensures !AllResolve(t.condition.params, env1) ==> trace == [CheckEdge, Sleep(ERROR_DELAY)]
    ensures AllResolve(t.condition.params, env1) ==>
      var first := detector1(EdgeRequest(t.condition, t.delay, env1).value);
      && (first.NoEdgeFound? ==> trace == [CheckEdge, Sleep(t.delay)])
      && (first.DetectorFailed? ==> trace == [CheckEdge, Sleep(ERROR_DELAY)])
      && (first.LastEdge? ==> |trace| >= 3 && trace[2] == CheckEdge)
    ensures AllResolve(t.condition.params, env1)
      && detector1(EdgeRequest(t.condition, t.delay, env1).value).LastEdge?
      && (!AllResolve(t.condition.params, env2)
          || detector2(EdgeRequest(t.condition, t.delay, env2).value).DetectorFailed?)
      ==> Fire !in trace && trace[|trace| - 1] == Sleep(ERROR_DELAY)
  {
    Iterate(t.delay, now,
      GetEdge(t.condition, t.delay, env1, detector1),
      GetEdge(t.condition, t.delay, env2, detector2))
  }

  /** Resolving the same parameter values, both queries of a pass hand the
      detector the same interpolated query, window and lookback. */
  lemma {:induction false} SameQueryBothTimes(c: Condition, delay: u64, env1: Env, env2: Env)
    requires forall i :: 0 <= i < |c.params| ==>
      GetValue(c.params[i].definition, env1) == GetValue(c.params[i].definition, env2)
    ensures EdgeRequest(c, delay, env1) == EdgeRequest(c, delay, env2)
  {
    ResolveAllAgree(c.params, env1, env2);
  }

  // The loop as an explicit state machine, stepped one phase at a time.

  /** The phases of a trigger: looking for an edge, waiting to re-check a
      found edge, cooling down after firing, backing off after an error. */
  datatype Phase = Searching | PendingVerify(edge: u64, wait: u64) | Cooldown | BackingOff

  /** The phases whose step starts with an edge query. */
  predicate Queries(p: Phase) {
    p.Searching? || p.PendingVerify?
  }

  /** One step of the machine: the next phase and what the step does.
      `reply` answers the step's edge query; phases that only sleep ignore it. */
  function Next(p: Phase, delay: u64, now: u64, reply: EdgeReply): (Phase, seq<Effect>) {
    match p
    case Searching =>
      (match reply
       case QueryFailed(_) => (BackingOff, [CheckEdge])
       case NoEdge => (Searching, [CheckEdge, Sleep(delay)])
       case Edge(e) => (PendingVerify(e, WaitBeforeVerify(delay, Since(now, e))), [CheckEdge]))
    case PendingVerify(e, wait) =>
      (match reply
       case QueryFailed(_) => (BackingOff, [Sleep(wait), CheckEdge])
       case NoEdge => (Searching, [Sleep(wait), CheckEdge])
       case Edge(e2) =>
         if e2 == e then (Cooldown, [Sleep(wait), CheckEdge, Fire])
         else (Searching, [Sleep(wait), CheckEdge]))
    case Cooldown => (Searching, [Sleep(delay)])
    case BackingOff => (Searching, [Sleep(ERROR_DELAY)])
  }

  /** Steps the machine from `p` until it is back in `Searching`, taking at
      most `fuel` steps and handing the replies, in order, to the steps that
      query. */
  function Resume(p: Phase, delay: u64, now: u64, replies: seq<EdgeReply>, fuel: nat): (Phase, seq<Effect>)
    decreases fuel
  {
    if p.Searching? || fuel == 0 then (p, [])
    else if Queries(p) then
      if |replies| == 0 then (p, [])
      else
        var (q, e) := Next(p, delay, now, replies[0]);
        var (f, rest) := Resume(q, delay, now, replies[1..], fuel - 1);
        (f, e + rest)
    else
      var (q, e) := Next(p, delay, now, NoEdge);
      var (f, rest) := Resume(q, delay, now, replies, fuel - 1);
      (f, e + rest)
  }

  /** The source's loop body and the machine agree: from `Searching`, fed the
      same two answers, the machine is back in `Searching` within three
      steps, having done exactly what one pass of the loop does. */
  lemma MachineMatchesLoop(delay: u64, now: u64, first: EdgeReply, verify: EdgeReply)
    ensures var (q, e) := Next(Searching, delay, now, first);
      Resume(q, delay, now, [verify], 2).0 == Searching
    ensures var (q, e) := Next(Searching, delay, now, first);
      e + Resume(q, delay, now, [verify], 2).1 == Iterate(delay, now, first, verify)
  {
    var (q, e) := Next(Searching, delay, now, first);
    if first.Edge? {
      var (q2, e2) := Next(q, delay, now, verify);
      assert Resume(q, delay, now, [verify], 2)
        == (Resume(q2, delay, now, [], 1).0, e2 + Resume(q2, delay, now, [], 1).1);
    }
  }

  // Many passes of the loop.

  /** The inputs of one pass: the clock reading and the two query answers. */
  datatype Observation = Observation(now: u64, first: EdgeReply, verify: EdgeReply)

  /** The pass fires: the re-check returned the edge first found. */
  predicate Confirmed(o: Observation) {
    o.first.Edge? && o.verify == Edge(o.first.at)
  }

  /** The trace of consecutive passes of the loop. */
  function Run(delay: u64, passes: seq<Observation>): seq<Effect>
    decreases |passes|
  {
    if |passes| == 0 then []
    else Iterate(delay, passes[0].now, passes[0].first, passes[0].verify) + Run(delay, passes[1..])
  }

  function CountConfirmed(passes: seq<Observation>): nat
    decreases |passes|
  {
    if |passes| == 0 then 0
    else (if Confirmed(passes[0]) then 1 else 0) + CountConfirmed(passes[1..])
  }

  lemma FiresInPass(delay: u64, o: Observation)
    ensures multiset(Iterate(delay, o.now, o.first, o.verify))[Fire] == if Confirmed(o) then 1 else 0
  {
  }

  /** Over any number of passes, the action fires once per pass whose
      verification returns the edge first found. Nothing records edges
      already acted on, so the same edge can fire in several passes. */
  lemma {:induction false} FireCount(delay: u64, passes: seq<Observation>)
    ensures multiset(Run(delay, passes))[Fire] == CountConfirmed(passes)
    decreases |passes|
  {
    if |passes| > 0 {
      FiresInPass(delay, passes[0]);
      FireCount(delay, passes[1..]);
    }
  }

  /** An edge the detector still reports after the cooldown fires again:
      two passes confirming the same edge fire twice. */
  lemma SameEdgeFiresAgain(delay: u64, now: u64, e: u64)
    ensures var o := Observation(now, Edge(e), Edge(e));
      multiset(Run(delay, [o, o]))[Fire] == 2
  {
    var o := Observation(now, Edge(e), Edge(e));
    FireCount(delay, [o, o]);
    assert [o, o][1..] == [o];
    assert [o][1..] == [];
    assert CountConfirmed([o]) == 1;
  }

  /** Every firing is followed at once by a sleep of `delay`. */
  predicate CooledDown(delay: u64, trace: seq<Effect>) {
    forall i :: 0 <= i < |trace| && trace[i] == Fire ==> i + 1 < |trace| && trace[i + 1] == Sleep(delay)
  }

  /** Across passes the cooldown always follows the action, so two firings
      are at least `delay` seconds of sleep apart. */
  lemma {:induction false} CooldownAfterEveryFire(delay: u64, passes: seq<Observation>)
    ensures CooledDown(delay, Run(delay, passes))
    decreases |passes|
  {
    if |passes| > 0 {
      var head := Iterate(delay, passes[0].now, passes[0].first, passes[0].verify);
      var tail := Run(delay, passes[1..]);
      CooldownAfterEveryFire(delay, passes[1..]);
      FiresOnlyOnConfirmedEdge(delay, passes[0].now, passes[0].first, passes[0].verify);
      assert CooledDown(delay, head);
      var t := head + tail;
      forall i | 0 <= i < |t| && t[i] == Fire
        ensures i + 1 < |t| && t[i + 1] == Sleep(delay)
      {
        if i < |head| {
          assert head[i] == Fire;
        } else {
          assert tail[i - |head|] == Fire;
        }
      }
    }
  }
}
