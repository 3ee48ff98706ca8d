/** The configuration protocol: requests deliver settings, and a later connection ends the server. */
module HttpConfig {
  import opened Bytes
  import opened HttpQuery

  const SETUP := "/setup"

  const SSID_KEY := "ssid"
  const PASSWORD_KEY := "password"
  const HOSTNAME_KEY := "hostname"
  const PORT_KEY := "port"

  type Params = map<string, string>

  datatype State = State(killServer: bool, complete: bool, ssid: string, password: string, hostname: string, port: u32)

  const START := State(false, false, "", "", "", 0)

  /** A request with its path and, behind '?', its parameters; or a connection, accepted or failed. */
  datatype Event = Request(path: string, params: Option<string>) | Accept(ok: bool)

  predicate CarriesAll(params: Params) {
    SSID_KEY in params && PASSWORD_KEY in params && HOSTNAME_KEY in params && PORT_KEY in params
  }

  /** The parameters an event delivers, if it is a request to the setup page. */
  function Delivered(e: Event): Params {
    if e.Request? && SETUP <= e.path && e.params.Some? then Parse(e.params.value) else map[]
  }

  function Pick(params: Params, key: string, otherwise: string): string {
    if key in params then params[key] else otherwise
  }

  /** The state after an event; `atoi` is the C library's, its result taken as unsigned. */
  function Next(s: State, e: Event, atoi: string -> u32): State {
    var params := Delivered(e);
    State(s.killServer || CarriesAll(params),
          s.complete || (e == Accept(true) && s.killServer),
          Pick(params, SSID_KEY, s.ssid), Pick(params, PASSWORD_KEY, s.password),
          Pick(params, HOSTNAME_KEY, s.hostname),
          if PORT_KEY in params then atoi(params[PORT_KEY]) else s.port)
  }

  // ---------- Runs ----------

  function StateAt(run: seq<Event>, k: nat, atoi: string -> u32): State
    requires k <= |run|
  {
    if k == 0 then START else Next(StateAt(run, k - 1, atoi), run[k - 1], atoi)
  }

  ghost predicate SomeAll(run: seq<Event>, k: nat) {
    exists i :: 0 <= i < k <= |run| && CarriesAll(Delivered(run[i]))
  }

  lemma SomeAllNext(run: seq<Event>, p: nat)
    requires p < |run|
    ensures SomeAll(run, p + 1) <==> SomeAll(run, p) || CarriesAll(Delivered(run[p]))
  {
  }

  lemma {:induction false} KilledIff(run: seq<Event>, k: nat, atoi: string -> u32)
    requires k <= |run|
    ensures StateAt(run, k, atoi).killServer <==> SomeAll(run, k)
  {
    if k > 0 {
      KilledIff(run, k - 1, atoi);
      SomeAllNext(run, k - 1);
    }
  }

  /** In every run, configuration is complete exactly when some connection was accepted after some
      single request that carried all four keys. */
  lemma {:induction false} CompleteIff(run: seq<Event>, k: nat, atoi: string -> u32)
    requires k <= |run|
    ensures StateAt(run, k, atoi).complete <==> exists j: nat :: j < k && run[j] == Accept(true) && SomeAll(run, j)
  {
    if k > 0 {
      var p := k - 1;
      CompleteIff(run, p, atoi);
      KilledIff(run, p, atoi);
    }
  }

  /** The value delivered last for a key in the first `k` events. */
  function LastDelivered(run: seq<Event>, k: nat, key: string): Option<string>
    requires k <= |run|
  {
    if k == 0 then None
    else if key in Delivered(run[k - 1]) then Some(Delivered(run[k - 1])[key])
    else LastDelivered(run, k - 1, key)
  }

  function OrElse(v: Option<string>, otherwise: string): string {
    if v.Some? then v.value else otherwise
  }

  /** In every run, each setting holds the value delivered last for its key, whatever requests those
      values came with. */
  lemma {:induction false} SettingsAreLastDelivered(run: seq<Event>, k: nat, atoi: string -> u32)
    requires k <= |run|
    ensures var s := StateAt(run, k, atoi);
            && s.ssid == OrElse(LastDelivered(run, k, SSID_KEY), "")
            && s.password == OrElse(LastDelivered(run, k, PASSWORD_KEY), "")
            && s.hostname == OrElse(LastDelivered(run, k, HOSTNAME_KEY), "")
            && s.port == match LastDelivered(run, k, PORT_KEY) { case None => 0 case Some(v) => atoi(v) }
  {
    if k > 0 {
      SettingsAreLastDelivered(run, k - 1, atoi);
    }
  }

  predicate IsKey(key: string) {
    key == SSID_KEY || key == PASSWORD_KEY || key == HOSTNAME_KEY || key == PORT_KEY
  }

  /** Once complete, every setting was delivered by some request. */
  lemma CompleteMeansDelivered(run: seq<Event>, k: nat, atoi: string -> u32, key: string)
    requires k <= |run| && StateAt(run, k, atoi).complete && IsKey(key)
    ensures LastDelivered(run, k, key).Some?
  {
    CompleteIff(run, k, atoi);
    var j: nat :| j < k && run[j] == Accept(true) && SomeAll(run, j);
    SomeAllDelivers(run, j, key);
    StaysDelivered(run, j, k, key);
  }

  lemma SomeAllDelivers(run: seq<Event>, j: nat, key: string)
    requires j <= |run| && SomeAll(run, j) && IsKey(key)
    ensures LastDelivered(run, j, key).Some?
  {
    var i :| 0 <= i < j <= |run| && CarriesAll(Delivered(run[i]));
    assert key in Delivered(run[i]);
    StaysDelivered(run, i + 1, j, key);
  }

  lemma {:induction false} StaysDelivered(run: seq<Event>, i: nat, k: nat, key: string)
    requires i <= k <= |run| && LastDelivered(run, i, key).Some?
    ensures LastDelivered(run, k, key).Some?
  {
    if i < k {
      StaysDelivered(run, i, k - 1, key);
    }
  }

  lemma KeysDiffer()
    ensures SSID_KEY != PASSWORD_KEY && SSID_KEY != HOSTNAME_KEY && SSID_KEY != PORT_KEY
    ensures PASSWORD_KEY != HOSTNAME_KEY && PASSWORD_KEY != PORT_KEY && HOSTNAME_KEY != PORT_KEY
  {
    assert SSID_KEY[0] == 's' && PASSWORD_KEY[1] == 'a' && HOSTNAME_KEY[0] == 'h' && PORT_KEY[1] == 'o';
    assert PORT_KEY[0] == 'p' && PASSWORD_KEY[0] == 'p';
  }

  // ---------- What a form delivers ----------

  /** The value of the last of these pairs with the key. */
  function LastValue(pairs: seq<Pair>, key: string): Option<string> {
    if pairs == [] then None
    else if LastValue(pairs[1..], key).Some? then LastValue(pairs[1..], key)
    else if pairs[0].key == key then Some(pairs[0].value)
    else None
  }

  predicate AllFour(pairs: seq<Pair>) {
    && LastValue(pairs, "ssid").Some? && LastValue(pairs, "password").Some?
    && LastValue(pairs, "hostname").Some? && LastValue(pairs, "port").Some?
  }

  lemma {:induction false} LastWinsIs(data: map<string, string>, pairs: seq<Pair>, key: string)
    ensures var d := LastWins(data, pairs);
            match LastValue(pairs, key)
            case Some(v) => key in d && d[key] == v
            case None => (key in d <==> key in data) && (key in data ==> d[key] == data[key])
    decreases |pairs|
  {
    if pairs != [] {
      LastWinsIs(data[pairs[0].key := pairs[0].value], pairs[1..], key);
    }
  }

  lemma FormParsed(pairs: seq<Pair>, key: string)
    requires pairs != [] && forall p | p in pairs :: Plain(p)
    ensures var d := Parse(JoinPairs(pairs));
            match LastValue(pairs, key) case Some(v) => key in d && d[key] == v case None => key !in d
  {
    ParseUndoesJoin(pairs);
    LastWinsIs(map[], pairs, key);
  }

  /** A form sent to the setup page sets each setting to the last value it has for the setting's key, and
      leaves the others as they were; the server is to end if it has all four keys. */
  lemma FormDelivers(s: State, path: string, pairs: seq<Pair>, atoi: string -> u32)
    requires "/setup" <= path && pairs != [] && forall p | p in pairs :: Plain(p)
    ensures var n := Next(s, Request(path, Some(JoinPairs(pairs))), atoi);
            && n.ssid == OrElse(LastValue(pairs, "ssid"), s.ssid)
            && n.password == OrElse(LastValue(pairs, "password"), s.password)
            && n.hostname == OrElse(LastValue(pairs, "hostname"), s.hostname)
            && n.port == (match LastValue(pairs, "port") case None => s.port case Some(v) => atoi(v))
            && n.killServer == (s.killServer || AllFour(pairs))
            && n.complete == s.complete
  {
    FormParsed(pairs, "ssid");
    FormParsed(pairs, "password");
    FormParsed(pairs, "hostname");
    FormParsed(pairs, "port");
  }

  lemma ExampleJoined(a: Pair, b: Pair)
    requires a == Pair("ssid", "net") && b == Pair("port", "80")
    ensures JoinPairs([a, b]) == "ssid=net&port=80"
    ensures LastValue([a, b], "ssid") == Some("net") && LastValue([a, b], "port") == Some("80")
    ensures LastValue([a, b], "password") == None && LastValue([a, b], "hostname") == None
  {
    assert [a, b][1..] == [b] && [b][1..] == [];
    assert Text(a) == "ssid=net" && Text(b) == "port=80";
    KeysDiffer();
    assert LastValue([], "ssid") == None && LastValue([b], "port") == Some("80");
    assert LastValue([b], "ssid") == None && LastValue([b], "password") == None && LastValue([b], "hostname") == None;
  }

  /** A form as a browser sends it. */
  lemma ExampleForm(s: State, atoi: string -> u32)
    ensures var n := Next(s, Request("/setup", Some("ssid=net&port=80")), atoi);
            && n.ssid == "net" && n.port == atoi("80")
            && n.password == s.password && n.hostname == s.hostname
            && n.killServer == s.killServer && n.complete == s.complete
  {
    var a, b := Pair("ssid", "net"), Pair("port", "80");
    ExampleJoined(a, b);
    assert Plain(a) && Plain(b);
    FormDelivers(s, "/setup", [a, b], atoi);
  }

  /** No other request changes anything, and a connection only completes. */
  lemma OthersKeep(s: State, path: string, params: Option<string>, ok: bool, atoi: string -> u32)
    ensures !("/setup" <= path) || params == None ==> Next(s, Request(path, params), atoi) == s
    ensures Next(s, Accept(ok), atoi) == s.(complete := s.complete || (ok && s.killServer))
  {
  }

  /** What a browser does: send a form, ask for a page without a form or outside the setup page, or connect. */
  datatype Visit = Form(path: string, pairs: seq<Pair>) | Page(page: string, params: Option<string>) | Connect(ok: bool)

  predicate Proper(v: Visit) {
    match v
    case Form(path, pairs) => "/setup" <= path && pairs != [] && forall p | p in pairs :: Plain(p)
    case Page(page, params) => !("/setup" <= page) || params == None
    case Connect(_) => true
  }

  function Sent(v: Visit): seq<Pair> {
    if v.Form? then v.pairs else []
  }

  function ToEvent(v: Visit): Event
    requires Proper(v)
  {
    match v
    case Form(path, pairs) => Request(path, Some(JoinPairs(pairs)))
    case Page(page, params) => Request(page, params)
    case Connect(ok) => Accept(ok)
  }

  function AfterVisits(visits: seq<Visit>, k: nat, atoi: string -> u32): State
    requires k <= |visits| && forall i :: 0 <= i < |visits| ==> Proper(visits[i])
  {
    if k == 0 then START else Next(AfterVisits(visits, k - 1, atoi), ToEvent(visits[k - 1]), atoi)
  }

  /** The value sent last for a key in the first `k` visits. */
  function LastSent(visits: seq<Visit>, k: nat, key: string): Option<string>
    requires k <= |visits|
  {
    if k == 0 then None
    else if LastValue(Sent(visits[k - 1]), key).Some? then LastValue(Sent(visits[k - 1]), key)
    else LastSent(visits, k - 1, key)
  }

  ghost predicate SomeFull(visits: seq<Visit>, k: nat) {
    exists i :: 0 <= i < k <= |visits| && AllFour(Sent(visits[i]))
  }

  ghost predicate Completed(visits: seq<Visit>, k: nat) {
    exists j: nat :: j < k <= |visits| && visits[j] == Connect(true) && SomeFull(visits, j)
  }

  lemma VisitStep(s: State, v: Visit, atoi: string -> u32)
    requires Proper(v)
    ensures var n := Next(s, ToEvent(v), atoi);
            && n.ssid == OrElse(LastValue(Sent(v), "ssid"), s.ssid)
            && n.password == OrElse(LastValue(Sent(v), "password"), s.password)
            && n.hostname == OrElse(LastValue(Sent(v), "hostname"), s.hostname)
            && n.port == (match LastValue(Sent(v), "port") case None => s.port case Some(p) => atoi(p))
            && n.killServer == (s.killServer || AllFour(Sent(v)))
            && n.complete == (s.complete || (v == Connect(true) && s.killServer))
  {
    match v
    case Form(path, pairs) => FormDelivers(s, path, pairs, atoi);
    case Page(page, params) => OthersKeep(s, page, params, true, atoi);
    case Connect(ok) => OthersKeep(s, "", None, ok, atoi);
  }

  lemma FullStep(visits: seq<Visit>, p: nat)
    requires p < |visits|
    ensures SomeFull(visits, p + 1) <==> SomeFull(visits, p) || AllFour(Sent(visits[p]))
    ensures Completed(visits, p + 1) <==> Completed(visits, p) || (visits[p] == Connect(true) && SomeFull(visits, p))
  {
  }

  /** Each setting is what was sent last for its literal key, in whatever form; the server is to end if some
      form had all four; and the configuration is complete if a connection was accepted after such a form. */
  ghost predicate Delivers(s: State, visits: seq<Visit>, k: nat, atoi: string -> u32)
    requires k <= |visits|
  {
    && s.ssid == OrElse(LastSent(visits, k, "ssid"), "")
    && s.password == OrElse(LastSent(visits, k, "password"), "")
    && s.hostname == OrElse(LastSent(visits, k, "hostname"), "")
    && s.port == (match LastSent(visits, k, "port") case None => 0 case Some(v) => atoi(v))
    && s.killServer == SomeFull(visits, k)
    && s.complete == Completed(visits, k)
  }

  lemma LastSentNext(visits: seq<Visit>, p: nat, key: string)
    requires p < |visits|
    ensures LastSent(visits, p + 1, key) ==
              if LastValue(Sent(visits[p]), key).Some? then LastValue(Sent(visits[p]), key)
              else LastSent(visits, p, key)
  {
  }

  lemma DeliversNext(s: State, visits: seq<Visit>, p: nat, atoi: string -> u32)
    requires p < |visits| && Proper(visits[p]) && Delivers(s, visits, p, atoi)
    ensures Delivers(Next(s, ToEvent(visits[p]), atoi), visits, p + 1, atoi)
  {
    VisitStep(s, visits[p], atoi);
    FullStep(visits, p);
    LastSentNext(visits, p, "ssid");
    LastSentNext(visits, p, "password");
    LastSentNext(visits, p, "hostname");
    LastSentNext(visits, p, "port");
  }

  /** So it is after any visits. */
  lemma {:induction false} VisitsDeliver(visits: seq<Visit>, k: nat, atoi: string -> u32)
    requires k <= |visits| && forall i :: 0 <= i < |visits| ==> Proper(visits[i])
    ensures Delivers(AfterVisits(visits, k, atoi), visits, k, atoi)
  {
    if k > 0 {
      VisitsDeliver(visits, k - 1, atoi);
      DeliversNext(AfterVisits(visits, k - 1, atoi), visits, k - 1, atoi);
    }
  }

  // ---------- The server ----------

  /** Whether a key has been taken out of the parameters yet. */
  function Taken(params: Params, left: set<string>, key: string): nat {
    if key in params && key !in left then 1 else 0
  }

  /** What a setting is when the keys in `left` have still to be looked at. */
  function Settled(params: Params, left: set<string>, key: string, otherwise: string): string {
    if key in params && key !in left then params[key] else otherwise
  }

  function TakenCount(params: Params, left: set<string>): nat {
    Taken(params, left, SSID_KEY) + Taken(params, left, PASSWORD_KEY)
    + Taken(params, left, HOSTNAME_KEY) + Taken(params, left, PORT_KEY)
  }

  lemma TakenNext(params: Params, left: set<string>, first: string)
    requires first in left && left <= params.Keys
    ensures TakenCount(params, left - {first}) == TakenCount(params, left) + (if IsKey(first) then 1 else 0)
  {
    KeysDiffer();
  }

  /** What fits of a text, and a NUL, stand in the buffer; the rest of it is as before. */
  ghost predicate Printed(before: seq<char>, after: seq<char>, text: string)
    requires |before| == |after| > 0
  {
    var n := if |text| < |after| then |text| else |after| - 1;
    after == text[..n] + ['\0'] + before[n + 1..]
  }

  /** The C library's `snprintf` for a text without conversions. */
  method PrintInto(result: array<char>, text: string) returns (len: nat)
    requires result.Length > 0
    modifies result
    ensures len == |text| && Printed(old(result[..]), result[..], text)
  {
    var n := if |text| < result.Length then |text| else result.Length - 1;
    forall i | 0 <= i < n {
      result[i] := text[i];
    }
    result[n] := '\0';
    len := |text|;
  }

  class Server {
    const atoi: string -> u32
    const body: string
    var killServer: bool
    var complete: bool
    var ssid: string
    var password: string
    var hostname: string
    var port: u32

    ghost function Current(): State
      reads this
    {
      State(killServer, complete, ssid, password, hostname, port)
    }

    constructor (atoi: string -> u32, body: string)
      ensures Current() == START && this.atoi == atoi && this.body == body
    {
      this.atoi, this.body := atoi, body;
      killServer, complete, ssid, password, hostname, port := false, false, "", "", "", 0;
    }

    method TakeOne(first: string, second: string) returns (count: nat)
      modifies this
      ensures killServer == old(killServer) && complete == old(complete)
      ensures ssid == if first == SSID_KEY then second else old(ssid)
      ensures password == if first == PASSWORD_KEY then second else old(password)
      ensures hostname == if first == HOSTNAME_KEY then second else old(hostname)
      ensures port == if first == PORT_KEY then atoi(second) else old(port)
      ensures count == if IsKey(first) then 1 else 0
    {
      count := 0;
      KeysDiffer();
      if first == PORT_KEY {
        port := atoi(second);
        count := count + 1;
      }
      if first == HOSTNAME_KEY {
        hostname := second;
        count := count + 1;
      }
      if first == PASSWORD_KEY {
        password := second;
        count := count + 1;
      }
      if first == SSID_KEY {
        ssid := second;
        count := count + 1;
      }
    }

    /** The iteration over the parsed parameters, in whatever order the hash map gives them. */
    method TakeParams(params: Params) returns (paramsCount: nat)
      modifies this
      ensures killServer == old(killServer) && complete == old(complete)
      ensures ssid == Pick(params, SSID_KEY, old(ssid)) && password == Pick(params, PASSWORD_KEY, old(password))
      ensures hostname == Pick(params, HOSTNAME_KEY, old(hostname))
      ensures port == if PORT_KEY in params then atoi(params[PORT_KEY]) else old(port)
      ensures paramsCount >= 4 <==> CarriesAll(params)
    {
      paramsCount := 0;
      var left := params.Keys;
      while left != {}
        invariant left <= params.Keys
        invariant killServer == old(killServer) && complete == old(complete)
        invariant ssid == Settled(params, left, SSID_KEY, old(ssid))
        invariant password == Settled(params, left, PASSWORD_KEY, old(password))
        invariant hostname == Settled(params, left, HOSTNAME_KEY, old(hostname))
        invariant port == if PORT_KEY in params && PORT_KEY !in left then atoi(params[PORT_KEY]) else old(port)
        invariant paramsCount == TakenCount(params, left)
        decreases left
      {
        var first :| first in left;
        TakenNext(params, left, first);
        var taken := TakeOne(first, params[first]);
        paramsCount := paramsCount + taken;
        left := left - {first};
      }
    }

    /** The page for the setup path, 0 (for a redirect) for any other; `result` is the caller's buffer. */
    method ServerContent(request: string, params: Option<string>, result: array<char>) returns (len: nat)
      requires result.Length > 0
      modifies this, result
      ensures Current() == Next(old(Current()), Request(request, params), atoi)
      ensures if SETUP <= request then len == |body| && Printed(old(result[..]), result[..], body)
              else len == 0 && result[..] == old(result[..])
    {
      if !(SETUP <= request) {
        return 0;
      }
      if params.Some? {
        var queryParams := ParseGetQuery(params.value);
        var paramsCount := TakeParams(queryParams);
        if paramsCount >= 4 {
          killServer := true;
        }
      }
      len := PrintInto(result, body);
    }

    method TcpServerAccept(ok: bool)
      modifies this
      ensures Current() == Next(old(Current()), Accept(ok), atoi)
    {
      if !ok {
        return;
      }
      if killServer {
        complete := true;
      }
    }
  }
}
