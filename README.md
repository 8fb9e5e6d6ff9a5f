# Thrust test stand firmware: a verified model of its control core

The firmware runs on an ESP32 that drives a rocket-motor thrust stand. It
reads a load cell ten times a second and keeps every reading in an
in-memory CSV log. It drives an ignition MOSFET from a flag that two web
commands set and clear. It serves a small HTTP control surface on its own
Wi-Fi access point.

This project models the single-threaded core of `src/main.cpp`:

- The globals. These are the ignition flag, the CSV text `dataLog`, the
  latest sample `current_time` / `current_weight`, `previousMillis` and the
  100 ms interval.
- One pass of the Arduino `loop`. It serves at most one pending request,
  writes the flag to the ignition pin, and takes a sample when the unsigned
  32-bit difference `currentMillis - previousMillis` reaches 100.
- The route table registered in `setup` and the five handlers, plus the
  not-found fallback.

How the modules are laid out:

- `Clock` holds the 32-bit millisecond counter and the sampling test.
- `Decimal` renders timestamps and weights as text. Each renderer has a
  parser beside it.
- `CsvLog` holds the log text and its reader.
- `Routing` holds dispatch and the replies.
- `StandSpec` describes the whole state machine as functions on a state
  record, and proves its properties over any sequence of loop passes since
  boot.
- `Firmware.TestStand` is the class whose fields are the globals. Its
  methods update those fields in place, and each is proved to agree with
  the matching `StandSpec` function.

Modelling choices:

- A weight is an integer number of ten-thousandths of a kilogram.
  `Decimal.Fmt4` writes it the way `String(x, 4)` writes such a value:
  sign, integer part, point, four digits.
- `millis()` and the load-cell reading are inputs of each loop pass
  (`StandSpec.Pass`).
- A request is an HTTP method and a path. A reply is a status, a content
  type, extra headers and a body.
- The dashboard page is the body constructor `DashboardPage`. Its markup is
  not reproduced.

Facts about the code that the model keeps exactly:

- The `/data` body is exactly `{"time":<ms>, "weight":<kg>}`, with no space
  after `"time":` (src/main.cpp:216).
- Only `/ignite` and `/extinguish` change state. `/`, `/data`, `/download` and
  the not-found handler only read it.
- A quiet run with one pass per millisecond 1..T takes exactly floor(T/100)
  samples (`StandSpec.IdleRunSamples`).

## Model

| member | source | states |
|---|---|---|
| `Clock.Elapsed` | src/main.cpp:93 | the unsigned 32-bit difference is `now - prev` when the counter has not wrapped and `2^32 - prev + now` when it has; adding it to `prev` modulo 2^32 gives `now` back |
| `Clock.WrapAroundSafe` | src/main.cpp:92-93 | for true times since boot less than 2^32 ms apart, the difference of the counter values equals the real elapsed time, so the sampling test fires exactly when at least 100 ms have really elapsed, across a wrap of `millis()` too |
| `Decimal.NatToString` | src/main.cpp:101 | a timestamp is written as decimal digits only, at least one, with no leading zero |
| `Decimal.NatToStringRoundTrip` | src/main.cpp:101 | reading a written timestamp back gives the same number |
| `Decimal.Pad4` | src/main.cpp:101 | the fractional part of a weight is exactly four digits whose value is the fraction |
| `Decimal.Fmt4` | src/main.cpp:101 | a four-place weight holds only digits, `-` and `.`, and has its point five characters from the end |
| `Decimal.Fmt4RoundTrip` | src/main.cpp:101 | reading a four-place weight back gives exactly the weight it was written from |
| `CsvLog.Line` | src/main.cpp:101 | a row without its line break holds only digits, `,`, `-` and `.`, and ends with the weight's point and four places |
| `CsvLog.Row` | src/main.cpp:101 | a row ends with a line break and has no other line break in it |
| `CsvLog.RowsAppend` | src/main.cpp:101 | appending a sample adds exactly its row `<time>,<weight>\n` to the end of the rows |
| `CsvLog.LineParses` | src/main.cpp:101 | a row has no line break before its last character, and reads back as the sample it was written from |
| `CsvLog.LogRoundTrip` | src/main.cpp:25 | the log text (header, then one row per sample) reads back as exactly the samples, in order |
| `CsvLog.RowHasOneLineBreak` | src/main.cpp:101 | every row holds exactly one line break |
| `CsvLog.HeaderIsOneLine` | src/main.cpp:25 | the header `Time (ms),Weight (kg)\n` is one line |
| `CsvLog.LogLineCount` | src/main.cpp:25 | a log after n samples has n + 1 lines: the header and one per sample |
| `Routing.Lookup` | src/main.cpp:69-73 | when some entry's path equals the request path, the handler found is that of the first such entry, and any handler found is of such a first entry; with no such entry the result is the not-found handler |
| `Routing.LookupRouteTable` | src/main.cpp:69-73 | in the registered table each of the five paths finds its own handler and any other path finds none; the registered paths are exactly those five |
| `Routing.Dispatch` | src/main.cpp:69-74 | a GET of `/`, `/ignite`, `/extinguish`, `/data` or `/download` reaches its own handler, each if and only if; every other path or method reaches the not-found handler |
| `Routing.DataJson` | src/main.cpp:216 | the `/data` JSON text opens with `{"time":` and closes with `}` |
| `Routing.DataJsonRoundTrip` | src/main.cpp:216 | the `/data` JSON text reads back as exactly the time and weight it was built from |
| `Routing.DataReply` | src/main.cpp:214-218 | `/data` always answers 200 with `application/json` and no extra header, and its body reads back as the time and weight it reports |
| `Routing.DownloadReply` | src/main.cpp:221-224 | `/download` answers 200 with `text/csv`, the attachment header `thrust_data.csv` as its only extra header, and the log as the body |
| `StandSpec.BootConsistent` | src/main.cpp:21-31 | the boot state has the header-only log of no samples, time and weight 0, `previousMillis` equal to the time, and a pin that matches the flag (src/main.cpp:44-45) |
| `StandSpec.IgnitionAfter` | src/main.cpp:227-238 | after a request the flag is set exactly when it was `/ignite`, or the flag was already set and the request was not `/extinguish` |
| `StandSpec.Respond` | src/main.cpp:108-242 | every handler answers 200 except the not-found one (404 `text/plain` `404: Not found`); `/data` is JSON that reads back as the latest time and weight; `/download` is the log as a `text/csv` attachment; the two commands confirm with `text/plain` `Ignition ON` / `Ignition OFF`; `/` is the `text/html` dashboard; only `/download` adds a header (its attachment header) |
| `StandSpec.HandleClient` | src/main.cpp:82 | a reply is sent exactly when a request is pending, and it is the routed handler's reply with the flag that handler leaves (`Serve`); nothing but the ignition flag changes, and with no request nothing changes |
| `StandSpec.Mirror` | src/main.cpp:84-89 | the pin is driven high exactly when the flag is set, and nothing else changes |
| `StandSpec.SampleStep` | src/main.cpp:91-102 | when the 32-bit test fires, `previousMillis` and time become `currentMillis`, the weight becomes the reading and exactly that sample's row is appended; otherwise the state is unchanged; the flag and pin are never touched and the old log is always a prefix of the new |
| `StandSpec.LoopPass` | src/main.cpp:80-103 | the reply is that of the request served; the flag is what the request left; after the pass the pin mirrors the flag; the log only grows |
| `StandSpec.PinMirrorsIgnition` | src/main.cpp:84-89 | after every loop pass (and at boot) the ignition pin is high exactly when the ignition flag is set |
| `StandSpec.PassReply` | src/main.cpp:80-103 | a pass answers its request with the routed handler's reply, computed from the state before the pass, and answers nothing when no request is pending |
| `StandSpec.DataPassReply` | src/main.cpp:214-218 | a pass serving `/data` answers with the time and weight held before the pass |
| `StandSpec.PassSampling` | src/main.cpp:92-102 | when the test fires, `previousMillis` and the latest time both become `currentMillis`, the weight becomes the reading and one row is appended; otherwise `previousMillis`, time, weight and log are all unchanged |
| `StandSpec.PassSamplingAcrossWrap` | src/main.cpp:93 | a pass appends to the log exactly when at least 100 ms of real time have passed since the last sample, wrap-around included (for passes less than 2^32 ms apart) |
| `StandSpec.RunConsistent` | src/main.cpp:92-102 | after any passes, the log is the header plus one row per sample taken; `previousMillis` equals the latest time; the latest sample is the last one taken, or time 0 and weight 0 before any; samples are spaced |
| `StandSpec.LogOnlyGrows` | src/main.cpp:101 | the log only grows: the log after any passes is a prefix of the log after any further passes |
| `StandSpec.LogStartsWithHeader` | src/main.cpp:25 | the log always begins with the CSV header |
| `StandSpec.LogRowsMatchSamples` | src/main.cpp:101 | the log has one line more than the number of samples taken, and reads back as exactly those samples in order |
| `StandSpec.SamplesSpaced` | src/main.cpp:93-98 | any two consecutive samples are at least 100 ms apart in 32-bit counter arithmetic; the first is at 100 ms or later |
| `StandSpec.PassIgnition` | src/main.cpp:227-238 | a pass sets the flag on `/ignite`, clears it on `/extinguish` and leaves it alone otherwise |
| `StandSpec.IgnitedLastStep` | src/main.cpp:227-238 | the last-command-was-ignite condition, updated pass by pass, follows the same rule as the flag |
| `StandSpec.LastWriteWins` | src/main.cpp:227-238 | after any passes, the flag is set if and only if some pass sent `/ignite` and no later pass sent `/extinguish` |
| `StandSpec.CommandsIdempotent` | src/main.cpp:227-238 | serving `/ignite` (or `/extinguish`) twice leaves the same state and sends the same reply as serving it once |
| `StandSpec.Serve` | src/main.cpp:214-242 | a request changes nothing but the ignition flag; `/ignite` sets it, `/extinguish` clears it, every other handler leaves the whole state unchanged; the reply is the routed handler's reply (`Respond`) to the state before the request, and it is 404 exactly for requests off the route table |
| `StandSpec.UnregisteredIsNotFound` | src/main.cpp:240-242 | any request for an unregistered path, or with a method other than GET, gets status 404, `text/plain`, body `404: Not found`, and changes nothing |
| `StandSpec.DownloadTwice` | src/main.cpp:221-224 | two `/download` requests in a row change nothing and get the identical reply: 200, `text/csv`, the attachment header, the log |
| `StandSpec.DownloadStableWithoutSampling` | src/main.cpp:221-224 | passes that take no sample leave the log, and so the `/download` reply, unchanged |
| `StandSpec.DataBeforeFirstSample` | src/main.cpp:26-27 | before any sample, a pass serving `/data` answers 200 with `{"time":0, "weight":0.0000}` |
| `StandSpec.DataReportsLatestSample` | src/main.cpp:214-218 | after a sample, a pass serving `/data` answers 200 with a body that reads back as the time and weight of the latest sample taken |
| `StandSpec.IdleRunSamples` | src/main.cpp:91-102 | a quiet run with a pass at every millisecond 1..t (t < 2^32) takes floor(t/100) samples, at 100, 200, 300, ... ms |
| `StandSpec.IdleRunLog` | src/main.cpp:100-101 | the log of such a run has the header and floor(t/100) rows |
| `Firmware.TestStand.constructor` | src/main.cpp:21-31 | the globals start with the flag off, the pin low, the log holding only the header, and time, weight and `previousMillis` all zero; no samples yet |
| `Firmware.TestStand.HandleIgnite` | src/main.cpp:227-231 | sets the flag and replies 200 `Ignition ON`, exactly as `StandSpec.Serve` does for a GET of `/ignite`, keeping the log consistent with the samples |
| `Firmware.TestStand.HandleExtinguish` | src/main.cpp:234-238 | clears the flag and replies 200 `Ignition OFF`, exactly as `StandSpec.Serve` does for a GET of `/extinguish`, keeping the log consistent with the samples |
| `Firmware.TestStand.HandleClient` | src/main.cpp:69-74 | routes the pending request, if any, runs its handler on the fields, and leaves the state and reply that `StandSpec.HandleClient` describes, keeping the log consistent with the samples |
| `Firmware.TestStand.WriteIgnitionPin` | src/main.cpp:84-89 | drives the pin high when the flag is set and low otherwise, changing nothing else and keeping the log consistent with the samples |
| `Firmware.TestStand.SampleIfDue` | src/main.cpp:91-102 | updates `previousMillis`, time, weight and log in place exactly as `StandSpec.SampleStep` says, reports whether it sampled, records the sample, and keeps the log consistent with the samples |
| `Firmware.TestStand.Loop` | src/main.cpp:80-103 | one pass of `loop`: the new fields and the reply are those of `StandSpec.LoopPass`, the pin mirrors the flag, and the samples grow by the one taken, if any |

## Left out

- Wi-Fi access-point setup, `server.begin()` and every `Serial` print (src/main.cpp:43, 47-57, 76-77, 229, 236). These are I/O with no effect on the modelled state.
- The web server library: reading requests off the socket, query strings, header handling, `Content-Length` and sending. The library's exact-path, method-checked handler lookup is modelled as `Routing.Dispatch`. The handlers call `server.send` (src/main.cpp:210, 217, 223, 230, 237, 241); the model returns the reply instead. A loop pass serves at most one request (`StandSpec.Pass.request`).
- HX711 start-up, tare, the one-second delay and the calibration factor (src/main.cpp:60-66). The load-cell driver is a foreign library. `scale.get_units()` (src/main.cpp:97) is the `reading` input of a pass, used only when a sample is due.
- Floating point. Weights are fixed-point ten-thousandths of a kilogram, so the float-to-four-places rounding of `String(x, 4)` is not modelled. With rounding gone, the written weight reads back as exactly the weight, not just to four places (`Decimal.Fmt4RoundTrip`).
- The dashboard markup and its browser script, including the 100-row table cap (src/main.cpp:109-209). The script runs in the browser, not in the firmware. `/` is modelled as a 200 `text/html` reply with a constant body that reads no state.
- `millis()` itself, a hardware clock. Its value is the `now` input of each pass.
- Memory. The log grows without bound in the model. On the device, a failed `String` allocation when appending is not modelled.
- `StandSpec.PassSamplingAcrossWrap` is stated only for passes less than 2^32 ms (about 49.7 days) apart. Beyond that, the unsigned difference cannot tell how many wraps occurred, and neither can the firmware.
