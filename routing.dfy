/**
 * The web control surface seen from outside: which handler a request reaches
 * (the route table registered in `setup`) and the replies the handlers send.
 * The transport itself (parsing requests, writing replies) is abstracted
 * away: a request is an HTTP method and a path, a reply is a status, a content
 * type, extra headers and a body.
 */
module Routing {
  import opened Optional
  import opened Decimal
  import opened Clock
  import opened CsvLog

  datatype HttpMethod = Get | Head | Post | Put | Patch | Delete | Options

  /** A request as the server hands it to routing: its HTTP method and its path (no query string). */
  datatype Request = Request(verb: HttpMethod, path: string)

  /** The handlers of the firmware. */
  datatype Endpoint = Root | Ignite | Extinguish | Data | Download | NotFound

  /** The handlers registered in `setup`, in registration order; every one of them answers GET only. */
  const RouteTable: seq<(string, Endpoint)> :=
    [("/", Root), ("/ignite", Ignite), ("/extinguish", Extinguish), ("/data", Data), ("/download", Download)]

  /** The paths that have a handler: those of the route table. */
  const RegisteredPaths: set<string> := set i | 0 <= i < |RouteTable| :: RouteTable[i].0

  /** The first entry of `table` for `path`; `NotFound` when there is none. */
  function Lookup(table: seq<(string, Endpoint)>, path: string): (e: Endpoint)
    ensures e != NotFound ==>
      exists i :: 0 <= i < |table| && table[i] == (path, e) && forall j :: 0 <= j < i ==> table[j].0 != path
    ensures forall i :: 0 <= i < |table| && table[i].0 == path && (forall j :: 0 <= j < i ==> table[j].0 != path) ==>
      e == table[i].1
    ensures (forall i :: 0 <= i < |table| ==> table[i].0 != path) ==> e == NotFound
  {
    if table == [] then NotFound
    else if table[0].0 == path then table[0].1
    else
      assert forall i :: 1 <= i < |table| ==> table[1..][i - 1] == table[i];
      Lookup(table[1..], path)
  }

  /** The route table, looked up path by path: each registered path finds its own handler, any other path none. */
  lemma LookupRouteTable(path: string)
    ensures Lookup(RouteTable, path) ==
      if path == "/" then Root
      else if path == "/ignite" then Ignite
      else if path == "/extinguish" then Extinguish
      else if path == "/data" then Data
      else if path == "/download" then Download
      else NotFound
    ensures path in RegisteredPaths <==>
      path == "/" || path == "/ignite" || path == "/extinguish" || path == "/data" || path == "/download"
  {
    var t := RouteTable;
    assert t[1..][1..][1..][1..][1..] == [];
    assert RouteTable[0].0 == "/" && RouteTable[1].0 == "/ignite" && RouteTable[2].0 == "/extinguish";
    assert RouteTable[3].0 == "/data" && RouteTable[4].0 == "/download";
  }

  /**
   * The handler a request reaches: the first registered GET handler whose path
   * matches exactly, otherwise the not-found handler.  Stated path by path: each
   * of the five routes is reached exactly by a GET of its path, and everything
   * else (another path, or another method) reaches the not-found handler.
   */
  function Dispatch(r: Request): (e: Endpoint)
    ensures e == Root <==> r.verb == Get && r.path == "/"
    ensures e == Ignite <==> r.verb == Get && r.path == "/ignite"
    ensures e == Extinguish <==> r.verb == Get && r.path == "/extinguish"
    ensures e == Data <==> r.verb == Get && r.path == "/data"
    ensures e == Download <==> r.verb == Get && r.path == "/download"
    ensures e == NotFound <==> r.verb != Get || r.path !in RegisteredPaths
  {
    LookupRouteTable(r.path);
    if r.verb != Get then NotFound else Lookup(RouteTable, r.path)
  }

  /** The body of a reply: literal text, or the dashboard page whose markup is not modelled. */
  datatype Body = Text(text: string) | DashboardPage

  datatype Response = Response(status: nat, contentType: string, headers: seq<(string, string)>, body: Body)

  /** Reply of `/`: the dashboard page. */
  const RootReply: Response := Response(200, "text/html", [], DashboardPage)

  /** Reply of `/ignite`. */
  const IgniteReply: Response := Response(200, "text/plain", [], Text("Ignition ON"))

  /** Reply of `/extinguish`. */
  const ExtinguishReply: Response := Response(200, "text/plain", [], Text("Ignition OFF"))

  /** Reply to every request no handler takes. */
  const NotFoundReply: Response := Response(404, "text/plain", [], Text("404: Not found"))

  /** The header `/download` adds so that browsers save the log as a file. */
  const AttachmentHeader: (string, string) := ("Content-Disposition", "attachment; filename=thrust_data.csv")

  const TimeKey: string := "{\"time\":"
  const WeightKey: string := " \"weight\":"

  /** The JSON text of `/data`: the latest sample's time and weight. */
  function DataJson(time: Millis, weight: int): (j: string)
    ensures |j| > |TimeKey| && j[..|TimeKey|] == TimeKey && j[|j| - 1] == '}'
  {
    TimeKey + NatToString(time) + "," + WeightKey + Fmt4(weight) + "}"
  }

  /** Reads the JSON text of `/data` back into a time and a weight. */
  function ParseDataJson(s: string): Option<(nat, int)> {
    if |s| < |TimeKey| + 1 || s[..|TimeKey|] != TimeKey || s[|s| - 1] != '}' then None
    else
      var mid := s[|TimeKey|..|s| - 1];
      var k := IndexOf(mid, ',');
      if k == |mid| then None
      else
        var rest := mid[k + 1..];
        if |rest| < |WeightKey| || rest[..|WeightKey|] != WeightKey then None
        else
          match (ParseNat(mid[..k]), ParseFixed4(rest[|WeightKey|..]))
          case (Some(t), Some(w)) => Some((t, w))
          case _ => None
  }

  /** Reading the JSON text takes the time up to the first comma and the weight after the second key. */
  lemma ParseDataJsonParts(t: string, w: string)
    requires Lacks(t, ',')
    ensures ParseDataJson(TimeKey + t + "," + WeightKey + w + "}") ==
      match (ParseNat(t), ParseFixed4(w))
      case (Some(n), Some(x)) => Some((n, x))
      case _ => None
  {
    var rest := WeightKey + w;
    var mid := t + [','] + rest;
    var s := TimeKey + mid + "}";
    assert TimeKey + t + "," + WeightKey + w + "}" == s;
    assert s[..|TimeKey|] == TimeKey;
    assert s[|TimeKey|..|s| - 1] == mid;
    SplitAtFirst(t, ',', rest);
    assert rest[..|WeightKey|] == WeightKey;
    assert rest[|WeightKey|..] == w;
  }

  /** The JSON text of `/data` gives back exactly the time and weight it was built from. */
  lemma DataJsonRoundTrip(time: Millis, weight: int)
    ensures ParseDataJson(DataJson(time, weight)) == Some((time, weight))
  {
    var t := NatToString(time);
    assert Lacks(t, ',') by {
      assert forall i :: 0 <= i < |t| ==> IsDigit(t[i]);
    }
    ParseDataJsonParts(t, Fmt4(weight));
    NatToStringRoundTrip(time);
    Fmt4RoundTrip(weight);
  }

  /** Reply of `/data`: the latest sample as JSON. */
  function DataReply(time: Millis, weight: int): (r: Response)
    ensures r.status == 200 && r.contentType == "application/json" && r.headers == []
    ensures r.body.Text? && ParseDataJson(r.body.text) == Some((time, weight))
  {
    DataJsonRoundTrip(time, weight);
    Response(200, "application/json", [], Text(DataJson(time, weight)))
  }

  /** Reply of `/download`: the whole log as a CSV attachment. */
  function DownloadReply(log: string): (r: Response)
    ensures r.status == 200 && r.contentType == "text/csv" && r.headers == [AttachmentHeader]
    ensures r.body == Text(log)
  {
    Response(200, "text/csv", [AttachmentHeader], Text(log))
  }
}
