/**
 * The firmware as it runs: its globals are the fields of one object, the web
 * handlers and the Arduino `loop` are methods that update those fields in
 * place.  Each method is proved to do what the matching function of
 * `StandSpec` describes, so everything proved there about runs of the state
 * machine holds of this object; the ghost field `samples` records the samples
 * taken, and `Valid` ties the log and the latest sample to it.
 */
module Firmware {
  import opened Optional
  import opened Decimal
  import opened Clock
  import opened CsvLog
  import opened Routing
  import opened StandSpec

  class TestStand {
    var ignitionStatus: bool
    /** The level last written to the ignition output pin. */
    var pin: Level
    var dataLog: string
    /** Latest weight, in ten-thousandths of a kilogram. */
    var currentWeight: int
    var currentTime: Millis
    var previousMillis: Millis
    /** The samples taken since boot, in order. */
    ghost var samples: seq<Sample>

    /** The globals as a state record. */
    function Model(): State
      reads this
    {
      State(ignitionStatus, pin, dataLog, currentTime, currentWeight, previousMillis)
    }

    ghost predicate Valid()
      reads this
    {
      Consistent(Model(), samples)
    }

    /** The initial values of the globals, and `setup` driving the ignition pin low. */
    constructor ()
      ensures Valid() && Model() == Boot && samples == []
    {
      ignitionStatus := false;
      dataLog := Header;
      currentWeight := 0;
      currentTime := 0;
      previousMillis := 0;
      pin := Low;
      samples := [];
    }

    /** `handleIgnite`: set the flag and confirm. */
    method HandleIgnite() returns (resp: Response)
      requires Valid()
      modifies this`ignitionStatus
      ensures Valid()
      ensures ignitionStatus && resp == IgniteReply
      ensures (Model(), resp) == Serve(old(Model()), Request(Get, "/ignite"))
    {
      ignitionStatus := true;
      resp := IgniteReply;
    }

    /** `handleExtinguish`: clear the flag and confirm. */
    method HandleExtinguish() returns (resp: Response)
      requires Valid()
      modifies this`ignitionStatus
      ensures Valid()
      ensures !ignitionStatus && resp == ExtinguishReply
      ensures (Model(), resp) == Serve(old(Model()), Request(Get, "/extinguish"))
    {
      ignitionStatus := false;
      resp := ExtinguishReply;
    }

    /** `server.handleClient()`: route the pending request, if any, and run its handler. */
    method HandleClient(request: Option<Request>) returns (resp: Option<Response>)
      requires Valid()
      modifies this`ignitionStatus
      ensures Valid()
      ensures (Model(), resp) == StandSpec.HandleClient(old(Model()), request)
    {
      match request
      case None =>
        resp := None;
      case Some(r) =>
        var reply: Response;
        match Dispatch(r) {
          case Root => reply := RootReply;
          case Ignite => reply := HandleIgnite();
          case Extinguish => reply := HandleExtinguish();
          case Data => reply := DataReply(currentTime, currentWeight);
          case Download => reply := DownloadReply(dataLog);
          case NotFound => reply := NotFoundReply;
        }
        resp := Some(reply);
    }

    /** Drive the ignition pin high when the flag is set and low otherwise. */
    method WriteIgnitionPin()
      requires Valid()
      modifies this`pin
      ensures Valid()
      ensures Model() == Mirror(old(Model()))
    {
      if ignitionStatus {
        pin := High;
      } else {
        pin := Low;
      }
    }

    /**
     * The sampling step of `loop`: when the unsigned 32-bit difference between
     * `currentMillis` and `previousMillis` reaches the interval, record the
     * reading as the latest sample and append its row to the log.
     */
    method SampleIfDue(currentMillis: Millis, reading: int) returns (sampled: bool)
      requires Valid()
      modifies this`previousMillis, this`currentWeight, this`currentTime, this`dataLog, this`samples
      ensures Valid()
      ensures Model() == SampleStep(old(Model()), currentMillis, reading)
      ensures sampled == SampleDue(currentMillis, old(previousMillis))
      ensures samples == old(samples) + if sampled then [Sample(currentMillis, reading)] else []
    {
      SampleStepConsistent(Model(), samples, currentMillis, reading);
      sampled := Elapsed(currentMillis, previousMillis) >= Interval;
      if sampled {
        previousMillis := currentMillis;
        currentWeight := reading;
        currentTime := currentMillis;
        dataLog := dataLog + (NatToString(currentTime) + "," + Fmt4(currentWeight) + "\n");
        samples := samples + [Sample(currentTime, currentWeight)];
      } else {
        assert samples + [] == samples;
      }
    }

    /** One pass of `loop`: serve a request, mirror the flag onto the pin, sample if due. */
    method Loop(p: Pass) returns (resp: Option<Response>)
      requires Valid()
      modifies this
      ensures Valid()
      ensures (Model(), resp) == LoopPass(old(Model()), p)
      ensures pin == High <==> ignitionStatus
      ensures samples == old(samples) + if SampleDue(p.now, old(previousMillis)) then [Sample(p.now, p.reading)] else []
    {
      resp := HandleClient(p.request);
      WriteIgnitionPin();
      var _ := SampleIfDue(p.now, p.reading);
    }
  }
}
