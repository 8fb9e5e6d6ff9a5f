/**
 * The firmware's state and what one pass of the Arduino `loop` does to it,
 * stated as functions on a state record.  The class in `Firmware` updates its
 * fields in place, step by step, and is proved to agree with these functions;
 * the properties of the firmware are proved here, over any sequence of loop
 * passes since boot.
 */
module StandSpec {
  import opened Optional
  import opened Decimal
  import opened Clock
  import opened CsvLog
  import opened Routing

  /** Level of the ignition output pin. */
  datatype Level = Low | High

  /** The level the pin is driven to for an ignition flag. */
  function PinLevel(on: bool): Level {
    if on then High else Low
  }

  /**
   * The globals of the firmware: the ignition flag and the pin it drives, the
   * CSV log, the latest sample (time and weight) and the time of the last
   * sample, `previousMillis`.
   */
  datatype State = State(ignition: bool, pin: Level, log: string, time: Millis, weight: int, prev: Millis)

  /** The state once `setup` has finished: flag off, pin low, log holding the header only, all times and the weight zero. */
  const Boot: State := State(false, Low, Header, 0, 0, 0)

  /** The ignition flag after a request has reached `e`: the two commands overwrite it, every other handler leaves it. */
  function IgnitionAfter(e: Endpoint, on: bool): (after: bool)
    ensures after <==> e == Ignite || (on && e != Extinguish)
  {
    match e
    case Ignite => true
    case Extinguish => false
    case _ => on
  }

  /** The reply a handler sends, computed from the state it reads. */
  function Respond(e: Endpoint, s: State): (r: Response)
    ensures r.status == (if e == NotFound then 404 else 200)
    ensures e == Data ==> r.contentType == "application/json" && r.body.Text? && ParseDataJson(r.body.text) == Some((s.time, s.weight))
    ensures r.headers == (if e == Download then [AttachmentHeader] else [])
    ensures e == Download ==> r.contentType == "text/csv" && r.body == Text(s.log)
    ensures e == Ignite ==> r.contentType == "text/plain" && r.body == Text("Ignition ON")
    ensures e == Extinguish ==> r.contentType == "text/plain" && r.body == Text("Ignition OFF")
    ensures e == NotFound ==> r.contentType == "text/plain" && r.body == Text("404: Not found")
    ensures e == Root ==> r.contentType == "text/html" && r.body == DashboardPage
  {
    match e
    case Root => RootReply
    case Ignite => IgniteReply
    case Extinguish => ExtinguishReply
    case Data => DataReply(s.time, s.weight)
    case Download => DownloadReply(s.log)
    case NotFound => NotFoundReply
  }

  /** One request: route it, let its handler update the flag, and reply. */
  function Serve(s: State, r: Request): (res: (State, Response))
    ensures res.0 == s.(ignition := res.0.ignition)
    ensures Dispatch(r) == Ignite ==> res.0.ignition
    ensures Dispatch(r) == Extinguish ==> !res.0.ignition
    ensures Dispatch(r) != Ignite && Dispatch(r) != Extinguish ==> res.0 == s
    ensures res.1.status == 404 <==> r.verb != Get || r.path !in RegisteredPaths
    ensures res.1 == Respond(Dispatch(r), s)
  {
    var e := Dispatch(r);
    (s.(ignition := IgnitionAfter(e, s.ignition)), Respond(e, s))
  }

  /** `server.handleClient()`: serve the pending request, if there is one. */
  function HandleClient(s: State, request: Option<Request>): (res: (State, Option<Response>))
    ensures res.1.Some? <==> request.Some?
    ensures res.0 == s.(ignition := res.0.ignition)
    ensures request.None? ==> res == (s, None)
    ensures request.Some? ==> res == (Serve(s, request.value).0, Some(Serve(s, request.value).1))
  {
    match request
    case None => (s, None)
    case Some(r) => (Serve(s, r).0, Some(Serve(s, r).1))
  }

  /** Drive the ignition pin from the flag. */
  function Mirror(s: State): (s': State)
    ensures s' == s.(pin := s'.pin)
    ensures s'.pin == High <==> s.ignition
  {
    s.(pin := PinLevel(s.ignition))
  }

  /** The sampling step: when an interval has elapsed, record the reading and append its row. */
  function SampleStep(s: State, now: Millis, reading: int): (s': State)
    ensures s'.ignition == s.ignition && s'.pin == s.pin
    ensures SampleDue(now, s.prev) ==>
      s'.prev == now && s'.time == now && s'.weight == reading && s'.log == s.log + Row(Sample(now, reading))
    ensures !SampleDue(now, s.prev) ==> s' == s
    ensures s.log <= s'.log
  {
    if SampleDue(now, s.prev) then
      s.(prev := now, weight := reading, time := now, log := s.log + Row(Sample(now, reading)))
    else s
  }

  /**
   * The inputs of one pass of `loop`: the request waiting at the server (if
   * any), the value `millis()` returns and the reading the load cell would give.
   */
  datatype Pass = Pass(request: Option<Request>, now: Millis, reading: int)

  /** One pass of `loop`: serve a request, mirror the flag onto the pin, then sample if due. */
  function LoopPass(s: State, p: Pass): (res: (State, Option<Response>))
    ensures res.1 == HandleClient(s, p.request).1
    ensures res.0.ignition == HandleClient(s, p.request).0.ignition
    ensures res.0.pin == High <==> res.0.ignition
    ensures s.log <= res.0.log
  {
    var served := HandleClient(s, p.request);
    (SampleStep(Mirror(served.0), p.now, p.reading), served.1)
  }

  /** The state after the passes `ps`, starting from boot. */
  function Run(ps: seq<Pass>): State {
    if ps == [] then Boot else LoopPass(Run(ps[..|ps| - 1]), ps[|ps| - 1]).0
  }

  /** The samples the passes `ps` take, in order. */
  function Taken(ps: seq<Pass>): seq<Sample> {
    if ps == [] then []
    else
      var last := ps[|ps| - 1];
      Taken(ps[..|ps| - 1]) +
      (if SampleDue(last.now, Run(ps[..|ps| - 1]).prev) then [Sample(last.now, last.reading)] else [])
  }

  /** Every sample is at least one interval (in 32-bit counter arithmetic) after the one before, the first after boot time 0. */
  predicate Spaced(ss: seq<Sample>) {
    && (|ss| > 0 ==> SampleDue(ss[0].time, 0))
    && forall i :: 0 < i < |ss| ==> SampleDue(ss[i].time, ss[i - 1].time)
  }

  /** The state agrees with the samples `ss` taken so far. */
  predicate Consistent(s: State, ss: seq<Sample>) {
    && s.log == LogText(ss)
    && s.time == s.prev
    && (ss == [] ==> s.time == 0 && s.weight == 0)
    && (ss != [] ==> ss[|ss| - 1] == Sample(s.time, s.weight))
    && Spaced(ss)
  }

  /** Boot agrees with an empty sample history, and its pin already mirrors its flag. */
  lemma BootConsistent()
    ensures Consistent(Boot, [])
    ensures Boot.pin == PinLevel(Boot.ignition)
  {
  }

  /** Serving a request and mirroring the pin leave the log and the latest sample alone. */
  lemma ServeKeepsSamples(s: State, p: Pass)
    ensures var s1 := Mirror(HandleClient(s, p.request).0);
      s1.log == s.log && s1.time == s.time && s1.weight == s.weight && s1.prev == s.prev
  {
  }

  /** A sample at least one interval after the last one (or after boot) keeps the samples spaced. */
  lemma SpacedAppend(ss: seq<Sample>, x: Sample)
    requires Spaced(ss)
    requires SampleDue(x.time, if ss == [] then 0 else ss[|ss| - 1].time)
    ensures Spaced(ss + [x])
  {
    var ss' := ss + [x];
    assert ss'[|ss|] == x;
    forall i | 0 < i < |ss'| ensures SampleDue(ss'[i].time, ss'[i - 1].time) {
      assert ss'[i - 1] == ss[i - 1];
      if i < |ss| {
        assert ss'[i] == ss[i];
      }
    }
    if ss != [] {
      assert ss'[0] == ss[0];
    }
  }

  /** The sampling step keeps the state consistent with the samples, adding the one it takes. */
  lemma SampleStepConsistent(s: State, ss: seq<Sample>, now: Millis, reading: int)
    requires Consistent(s, ss)
    ensures Consistent(SampleStep(s, now, reading), ss + (if SampleDue(now, s.prev) then [Sample(now, reading)] else []))
  {
    if SampleDue(now, s.prev) {
      var x := Sample(now, reading);
      LogAppend(ss, x);
      SpacedAppend(ss, x);
      assert (ss + [x])[|ss|] == x;
    } else {
      assert ss + [] == ss;
    }
  }

  /** One pass keeps the state consistent with the samples, adding the one it takes. */
  lemma PassConsistent(s: State, ss: seq<Sample>, p: Pass)
    requires Consistent(s, ss)
    ensures Consistent(LoopPass(s, p).0, ss + (if SampleDue(p.now, s.prev) then [Sample(p.now, p.reading)] else []))
  {
    var s1 := Mirror(HandleClient(s, p.request).0);
    ServeKeepsSamples(s, p);
    assert Consistent(s1, ss);
    SampleStepConsistent(s1, ss, p.now, p.reading);
  }

  lemma {:induction false} RunConsistent(ps: seq<Pass>)
    ensures Consistent(Run(ps), Taken(ps))
  {
    if ps != [] {
      RunConsistent(ps[..|ps| - 1]);
      PassConsistent(Run(ps[..|ps| - 1]), Taken(ps[..|ps| - 1]), ps[|ps| - 1]);
    }
  }

  /** After every pass the pin is high exactly when the ignition flag is set (and it is low at boot). */
  lemma PinMirrorsIgnition(ps: seq<Pass>)
    ensures Run(ps).pin == High <==> Run(ps).ignition
  {
  }

  /** The pass decides to sample from the unsigned difference alone, and only sampling touches the latest sample and the log. */
  lemma PassSampling(s: State, p: Pass)
    ensures var s' := LoopPass(s, p).0;
      if SampleDue(p.now, s.prev) then
        s'.prev == p.now && s'.time == p.now && s'.weight == p.reading && s'.log == s.log + Row(Sample(p.now, p.reading))
      else
        s'.prev == s.prev && s'.time == s.time && s'.weight == s.weight && s'.log == s.log
  {
  }

  /** What one pass answers: the routed handler's reply to its request, computed from the state before the pass, and nothing without a request. */
  lemma PassReply(s: State, p: Pass)
    ensures LoopPass(s, p).1 ==
      if p.request.Some? then Some(Respond(Dispatch(p.request.value), s)) else None
  {
  }

  /**
   * Sampling stays correct when `millis()` wraps: with `prevTicks` and
   * `nowTicks` the true milliseconds since boot at the last sample and now, less
   * than a counter period apart, a pass appends a row exactly when at least one
   * interval has really elapsed.
   */
  lemma PassSamplingAcrossWrap(s: State, p: Pass, prevTicks: nat, nowTicks: nat)
    requires s.prev == prevTicks % Modulus && p.now == nowTicks % Modulus
    requires prevTicks <= nowTicks < prevTicks + Modulus
    ensures LoopPass(s, p).0.log != s.log <==> nowTicks - prevTicks >= Interval
  {
    WrapAroundSafe(prevTicks, nowTicks);
    var x := Sample(p.now, p.reading);
    assert |Row(x)| > 0;
    assert |s.log + Row(x)| > |s.log|;
  }

  /** The log only grows: every earlier log is a prefix of every later one. */
  lemma {:induction false} LogOnlyGrows(ps: seq<Pass>, qs: seq<Pass>)
    ensures Run(ps).log <= Run(ps + qs).log
  {
    if qs != [] {
      var init := qs[..|qs| - 1];
      assert (ps + qs)[..|ps + qs| - 1] == ps + init;
      assert (ps + qs)[|ps + qs| - 1] == qs[|qs| - 1];
      LogOnlyGrows(ps, init);
    } else {
      assert ps + qs == ps;
    }
  }

  /** The log always starts with the CSV header. */
  lemma LogStartsWithHeader(ps: seq<Pass>)
    ensures Header <= Run(ps).log
  {
    RunConsistent(ps);
  }

  /**
   * The log holds the header line and one row per sample taken, and reading it
   * back gives exactly the samples taken, in order.
   */
  lemma LogRowsMatchSamples(ps: seq<Pass>)
    ensures Count(Run(ps).log, '\n') == |Taken(ps)| + 1
    ensures ParseLog(Run(ps).log) == Some(Taken(ps))
  {
    RunConsistent(ps);
    LogLineCount(Taken(ps));
    LogRoundTrip(Taken(ps));
  }

  /** Consecutive samples are at least one interval apart in 32-bit counter arithmetic; the first is at least one interval after boot. */
  lemma SamplesSpaced(ps: seq<Pass>)
    ensures forall i :: 0 < i < |Taken(ps)| ==> Elapsed(Taken(ps)[i].time, Taken(ps)[i - 1].time) >= Interval
    ensures |Taken(ps)| > 0 ==> Taken(ps)[0].time >= Interval
  {
    RunConsistent(ps);
    var ss := Taken(ps);
    assert Spaced(ss);
    forall i | 0 < i < |ss| ensures Elapsed(ss[i].time, ss[i - 1].time) >= Interval {
      assert SampleDue(ss[i].time, ss[i - 1].time);
    }
    if |ss| > 0 {
      assert SampleDue(ss[0].time, 0);
    }
  }

  /** Whether pass `p` carries a request that reaches handler `e`. */
  predicate RequestReaches(p: Pass, e: Endpoint) {
    p.request.Some? && Dispatch(p.request.value) == e
  }

  /** Some pass sent `/ignite` and no later pass sent `/extinguish`. */
  predicate IgnitedLast(ps: seq<Pass>) {
    exists i :: 0 <= i < |ps| && RequestReaches(ps[i], Ignite) && forall j :: i < j < |ps| ==> !RequestReaches(ps[j], Extinguish)
  }

  /** What one pass does to the ignition flag. */
  lemma PassIgnition(s: State, p: Pass)
    ensures LoopPass(s, p).0.ignition ==
      if RequestReaches(p, Ignite) then true else if RequestReaches(p, Extinguish) then false else s.ignition
  {
  }

  /** The `IgnitedLast` condition, one pass at a time. */
  lemma IgnitedLastStep(init: seq<Pass>, p: Pass)
    ensures IgnitedLast(init + [p]) <==>
      if RequestReaches(p, Ignite) then true else if RequestReaches(p, Extinguish) then false else IgnitedLast(init)
  {
    var ps := init + [p];
    assert ps[|init|] == p;
    if RequestReaches(p, Ignite) {
      assert RequestReaches(ps[|ps| - 1], Ignite);
    } else if RequestReaches(p, Extinguish) {
      forall i | 0 <= i < |ps| && RequestReaches(ps[i], Ignite)
        ensures exists j :: i < j < |ps| && RequestReaches(ps[j], Extinguish)
      {
        assert i != |ps| - 1;
        assert RequestReaches(ps[|ps| - 1], Extinguish);
      }
    } else {
      if IgnitedLast(init) {
        var i :| 0 <= i < |init| && RequestReaches(init[i], Ignite) && forall j :: i < j < |init| ==> !RequestReaches(init[j], Extinguish);
        assert ps[i] == init[i];
        forall j | i < j < |ps| ensures !RequestReaches(ps[j], Extinguish) {
          if j < |init| { assert ps[j] == init[j]; }
        }
      }
      if IgnitedLast(ps) {
        var i :| 0 <= i < |ps| && RequestReaches(ps[i], Ignite) && forall j :: i < j < |ps| ==> !RequestReaches(ps[j], Extinguish);
        assert i < |init|;
        assert init[i] == ps[i];
        forall j | i < j < |init| ensures !RequestReaches(init[j], Extinguish) {
          assert init[j] == ps[j];
        }
      }
    }
  }

  /** Last write wins: the flag is set exactly when the latest of all `/ignite` and `/extinguish` requests was `/ignite`. */
  lemma {:induction false} LastWriteWins(ps: seq<Pass>)
    ensures Run(ps).ignition <==> IgnitedLast(ps)
  {
    if ps != [] {
      var init, p := ps[..|ps| - 1], ps[|ps| - 1];
      assert ps == init + [p];
      LastWriteWins(init);
      PassIgnition(Run(init), p);
      IgnitedLastStep(init, p);
    }
  }

  /** `/ignite` and `/extinguish` are idempotent: serving the same command twice is serving it once, reply included. */
  lemma CommandsIdempotent(s: State, r: Request)
    requires Dispatch(r) == Ignite || Dispatch(r) == Extinguish
    ensures Serve(Serve(s, r).0, r) == Serve(s, r)
  {
  }

  /** Every request off the route table (another path, or a method other than GET) gets the 404 reply and changes nothing. */
  lemma UnregisteredIsNotFound(s: State, r: Request)
    requires r.verb != Get || r.path !in RegisteredPaths
    ensures Serve(s, r) == (s, Response(404, "text/plain", [], Text("404: Not found")))
  {
  }

  /** Two `/download` requests in a row get the same reply: the whole log, as a CSV attachment with status 200. */
  lemma DownloadTwice(s: State, r1: Request, r2: Request)
    requires Dispatch(r1) == Download && Dispatch(r2) == Download
    ensures Serve(s, r1).0 == s
    ensures Serve(Serve(s, r1).0, r2).1 == Serve(s, r1).1
    ensures Serve(s, r1).1 == Response(200, "text/csv", [AttachmentHeader], Text(s.log))
  {
  }

  /** Passes that take no sample leave the log, and so the `/download` reply, unchanged. */
  lemma DownloadStableWithoutSampling(ps: seq<Pass>, qs: seq<Pass>)
    requires Taken(ps + qs) == Taken(ps)
    ensures Run(ps + qs).log == Run(ps).log
    ensures Respond(Download, Run(ps + qs)) == Respond(Download, Run(ps))
  {
    RunConsistent(ps);
    RunConsistent(ps + qs);
  }

  lemma ZeroText()
    ensures NatToString(0) == "0"
    ensures Fmt4(0) == "0.0000"
  {
    assert Pad(0, 4) == "0000";
  }

  lemma DataJsonAtBoot()
    ensures DataJson(0, 0) == "{\"time\":0, \"weight\":0.0000}"
  {
    ZeroText();
  }

  /** A pass carrying a `/data` request answers with the latest time and weight of the state before it. */
  lemma DataPassReply(s: State, p: Pass)
    requires p.request.Some? && Dispatch(p.request.value) == Data
    ensures LoopPass(s, p).1 == Some(DataReply(s.time, s.weight))
  {
    PassReply(s, p);
  }

  /** Before the first sample, a pass serving `/data` answers time 0 and weight 0.0000, with status 200. */
  lemma DataBeforeFirstSample(ps: seq<Pass>, p: Pass)
    requires Taken(ps) == []
    requires p.request.Some? && Dispatch(p.request.value) == Data
    ensures LoopPass(Run(ps), p).1 == Some(Response(200, "application/json", [], Text("{\"time\":0, \"weight\":0.0000}")))
  {
    var s := Run(ps);
    RunConsistent(ps);
    assert s.time == 0 && s.weight == 0;
    DataPassReply(s, p);
    DataJsonAtBoot();
  }

  /** After a sample, a pass serving `/data` answers with the latest sample taken, with status 200. */
  lemma DataReportsLatestSample(ps: seq<Pass>, p: Pass)
    requires Taken(ps) != []
    requires p.request.Some? && Dispatch(p.request.value) == Data
    ensures var r := LoopPass(Run(ps), p).1;
      && r.Some? && r.value.status == 200 && r.value.body.Text?
      && ParseDataJson(r.value.body.text) == Some((Taken(ps)[|Taken(ps)| - 1].time, Taken(ps)[|Taken(ps)| - 1].weight))
  {
    var s := Run(ps);
    RunConsistent(ps);
    DataPassReply(s, p);
  }

  /** No requests, one pass at each millisecond 1, 2, ..., t, the load cell reading `reading` throughout. */
  function IdleTicks(t: nat, reading: int): (ps: seq<Pass>)
    requires t < Modulus
    ensures |ps| == t
  {
    if t == 0 then [] else IdleTicks(t - 1, reading) + [Pass(None, t, reading)]
  }

  /** Division facts for one more millisecond of a quiet run. */
  lemma IdleTickArith(t: nat)
    requires t > 0
    ensures var prev := (t - 1) / Interval * Interval;
      && prev <= t
      && (t - prev >= Interval <==> t % Interval == 0)
      && (t % Interval == 0 ==> t / Interval == (t - 1) / Interval + 1 && t / Interval * Interval == t)
      && (t % Interval != 0 ==> t / Interval == (t - 1) / Interval)
  {
  }

  /** One quiet pass: it samples exactly when its time reaches the next multiple of the interval. */
  lemma IdleStep(init: seq<Pass>, t: nat, reading: int)
    requires 0 < t < Modulus
    requires Run(init).prev == (t - 1) / Interval * Interval
    ensures var ps := init + [Pass(None, t, reading)];
      && Taken(ps) == Taken(init) + (if t % Interval == 0 then [Sample(t, reading)] else [])
      && Run(ps).prev == t / Interval * Interval
  {
    var ps := init + [Pass(None, t, reading)];
    assert ps[..|ps| - 1] == init;
    var prev := Run(init).prev;
    IdleTickArith(t);
    assert Elapsed(t, prev) == t - prev;
  }

  /** After a quiet run of t ms: floor(t / 100) samples at 100, 200, ... ms, the last at `prev`. */
  predicate IdleProgress(ss: seq<Sample>, prev: nat, t: nat) {
    && |ss| == t / Interval
    && prev == t / Interval * Interval
    && forall k :: 0 <= k < |ss| ==> ss[k].time == (k + 1) * Interval
  }

  lemma IdleProgressStep(ss: seq<Sample>, prev: nat, t: nat, reading: int)
    requires 0 < t < Modulus && IdleProgress(ss, prev, t - 1)
    ensures IdleProgress(ss + (if t % Interval == 0 then [Sample(t, reading)] else []), t / Interval * Interval, t)
  {
    IdleTickArith(t);
    if t % Interval == 0 {
      var ss' := ss + [Sample(t, reading)];
      forall k | 0 <= k < |ss'| ensures ss'[k].time == (k + 1) * Interval {
        if k < |ss| {
          assert ss'[k] == ss[k];
        }
      }
    } else {
      assert ss + [] == ss;
    }
  }

  /**
   * A quiet run of t milliseconds (no wrap-around) takes floor(t / 100)
   * samples, at 100, 200, 300, ... ms.
   */
  lemma {:induction false} IdleRunSamples(t: nat, reading: int)
    requires t < Modulus
    ensures |Taken(IdleTicks(t, reading))| == t / Interval
    ensures forall k :: 0 <= k < |Taken(IdleTicks(t, reading))| ==> Taken(IdleTicks(t, reading))[k].time == (k + 1) * Interval
    ensures Run(IdleTicks(t, reading)).prev == t / Interval * Interval
  {
    IdleRunProgress(t, reading);
  }

  lemma {:induction false} IdleRunProgress(t: nat, reading: int)
    requires t < Modulus
    ensures IdleProgress(Taken(IdleTicks(t, reading)), Run(IdleTicks(t, reading)).prev, t)
  {
    if t > 0 {
      IdleRunProgress(t - 1, reading);
      var init := IdleTicks(t - 1, reading);
      assert IdleTicks(t, reading) == init + [Pass(None, t, reading)];
      IdleStep(init, t, reading);
      IdleProgressStep(Taken(init), Run(init).prev, t, reading);
    }
  }

  /** The log of a quiet run of t milliseconds holds the header and floor(t / 100) rows. */
  lemma IdleRunLog(t: nat, reading: int)
    requires t < Modulus
    ensures Count(Run(IdleTicks(t, reading)).log, '\n') == t / Interval + 1
  {
    IdleRunSamples(t, reading);
    LogRowsMatchSamples(IdleTicks(t, reading));
  }
}
