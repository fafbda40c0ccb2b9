/** The request throttle of app/middleware.ts: a table from client address to a
    counter and the start of its window. A request within 60 seconds of the
    window start counts against a limit of 30; a later one opens a new window.
    The clock reading and the client address come with each request. */
module RateLimiter {
  import opened Wrappers

  const RateLimit: int := 30

  /** One minute, in milliseconds. */
  const TimeWindow: int := 60 * 1000

  /** Requests counted so far in the window that opened at `start`. */
  datatype Entry = Entry(count: int, start: int)

  type Table = map<string, Entry>

  /** The address the request came from, if known, and the clock at arrival. */
  datatype Request = Request(ip: Option<string>, now: int)

  /** Passed on to the route, or answered with status 429. */
  datatype Decision = Allowed | Rejected

  datatype Step = Step(table: Table, decision: Decision)

  /** `req.ip || "unknown"`: a missing or empty address is "unknown". */
  function ClientKey(ip: Option<string>): (k: string)
    ensures k == "unknown" <==> ip == None || ip == Some("") || ip == Some("unknown")
    ensures ip.Some? && ip.value != "" ==> k == ip.value
  {
    match ip
    case Some(a) => if a == "" then "unknown" else a
    case None => "unknown"
  }

  /** `middleware(req)`: the table after the request, and whether it passes. A
      rejected request is not stored back, but the entry it incremented is the
      one already in the table, so the increment stays. */
  function Handle(table: Table, req: Request): (r: Step)
    ensures r.table.Keys == table.Keys + {ClientKey(req.ip)}
    ensures forall k :: k in table && k != ClientKey(req.ip) ==> r.table[k] == table[k]
    ensures ClientKey(req.ip) !in table ==>
              r.table[ClientKey(req.ip)] == Entry(1, req.now) && r.decision == Allowed
    ensures var key := ClientKey(req.ip);
            key in table && req.now - table[key].start < TimeWindow ==>
              && r.table[key] == Entry(table[key].count + 1, table[key].start)
              && (r.decision == Rejected <==> table[key].count + 1 > RateLimit)
    ensures var key := ClientKey(req.ip);
            key in table && req.now - table[key].start >= TimeWindow ==>
              r.table[key] == Entry(1, req.now) && r.decision == Allowed
  {
    var key := ClientKey(req.ip);
    var entry := if key in table then table[key] else Entry(0, req.now);
    if req.now - entry.start < TimeWindow then
      var bumped := Entry(entry.count + 1, entry.start);
      if bumped.count > RateLimit then
        Step(table[key := bumped], Rejected)
      else
        Step(table[key := bumped], Allowed)
    else
      Step(table[key := Entry(1, req.now)], Allowed)
  }

  /** The requests handled one after another: the final table and each decision. */
  function Run(table: Table, reqs: seq<Request>): (r: (Table, seq<Decision>))
    ensures |r.1| == |reqs|
    ensures table.Keys <= r.0.Keys
    ensures forall k :: k in r.0 && k !in table ==> exists i :: 0 <= i < |reqs| && ClientKey(reqs[i].ip) == k
    decreases |reqs|
  {
    if |reqs| == 0 then (table, [])
    else
      var s := Handle(table, reqs[0]);
      var rest := Run(s.table, reqs[1..]);
      assert forall i :: 0 <= i < |reqs| - 1 ==> reqs[1..][i] == reqs[i + 1];
      (rest.0, [s.decision] + rest.1)
  }

  /** How many of the requests from `key` were allowed. */
  function AllowedFor(key: string, reqs: seq<Request>, decisions: seq<Decision>): nat
    requires |decisions| == |reqs|
    decreases |reqs|
  {
    if |reqs| == 0 then 0
    else (if ClientKey(reqs[0].ip) == key && decisions[0] == Allowed then 1 else 0)
         + AllowedFor(key, reqs[1..], decisions[1..])
  }

  /** How many of the requests come from `key`. */
  function CountFor(key: string, reqs: seq<Request>): nat
    decreases |reqs|
  {
    if |reqs| == 0 then 0
    else (if ClientKey(reqs[0].ip) == key then 1 else 0) + CountFor(key, reqs[1..])
  }

  function Max(a: int, b: int): int
  {
    if a >= b then a else b
  }

  /** While every request from `key` falls in the window its entry opened, the
      entry keeps its start, its count grows by one per request, and at most
      what is left of the 30 is allowed. */
  lemma {:induction false} WindowCap(table: Table, reqs: seq<Request>, key: string)
    requires key in table
    requires forall i :: 0 <= i < |reqs| && ClientKey(reqs[i].ip) == key ==>
               reqs[i].now - table[key].start < TimeWindow
    ensures var (t, ds) := Run(table, reqs);
            && key in t
            && t[key] == Entry(table[key].count + CountFor(key, reqs), table[key].start)
            && AllowedFor(key, reqs, ds) <= Max(0, RateLimit - table[key].count)
    decreases |reqs|
  {
    if |reqs| > 0 {
      var s := Handle(table, reqs[0]);
      assert key in s.table;
      assert s.table[key].start == table[key].start;
      assert forall i :: 0 <= i < |reqs| - 1 ==> reqs[1..][i] == reqs[i + 1];
      WindowCap(s.table, reqs[1..], key);
    }
  }

  /** No client gets more than 30 requests through in one window: once a request
      opens a window for `key` (a first request, or one after the previous window
      ran out), at most 30 of the requests from `key` that arrive within the
      minute after it are allowed. */
  lemma {:induction false} OpenedWindowCap(table: Table, reqs: seq<Request>, key: string)
    requires |reqs| > 0 && ClientKey(reqs[0].ip) == key
    requires key !in table || reqs[0].now - table[key].start >= TimeWindow
    requires forall i :: 0 <= i < |reqs| && ClientKey(reqs[i].ip) == key ==>
               reqs[i].now - reqs[0].now < TimeWindow
    ensures AllowedFor(key, reqs, Run(table, reqs).1) <= RateLimit
  {
    var s := Handle(table, reqs[0]);
    assert s.table[key] == Entry(1, reqs[0].now) && s.decision == Allowed;
    assert forall i :: 0 <= i < |reqs| - 1 ==> reqs[1..][i] == reqs[i + 1];
    WindowCap(s.table, reqs[1..], key);
  }

  /** Once a request is rejected, every further request from the same client in
      the same window is rejected too. */
  lemma {:induction false} RejectedStaysRejected(table: Table, req: Request, next: Request)
    requires Handle(table, req).decision == Rejected
    requires ClientKey(next.ip) == ClientKey(req.ip)
    requires next.now - table[ClientKey(req.ip)].start < TimeWindow
    ensures Handle(Handle(table, req).table, next).decision == Rejected
  {
  }

  /** Requests from other clients never change a client's entry. */
  lemma {:induction false} OthersUntouched(table: Table, reqs: seq<Request>, key: string)
    requires key in table
    requires forall i :: 0 <= i < |reqs| ==> ClientKey(reqs[i].ip) != key
    ensures key in Run(table, reqs).0 && Run(table, reqs).0[key] == table[key]
    decreases |reqs|
  {
    if |reqs| > 0 {
      assert forall i :: 0 <= i < |reqs| - 1 ==> reqs[1..][i] == reqs[i + 1];
      OthersUntouched(Handle(table, reqs[0]).table, reqs[1..], key);
    }
  }

  /** Thirty requests from a new client within one second pass; the
      thirty-first is refused. */
  lemma {:induction false} ThirtyFirstRejected(ip: string)
    requires ip != ""
    ensures var reqs := seq(31, i => Request(Some(ip), i));
            var ds := Run(map[], reqs).1;
            (forall i :: 0 <= i < 30 ==> ds[i] == Allowed) && ds[30] == Rejected
  {
    var reqs := seq(31, i => Request(Some(ip), i));
    AllowedRun(map[], reqs, ip, 0, 0);
  }

  /** Requests from one client in the window that opened at `start`, whenever that
      was: each is allowed exactly while the running count stays within the limit.
      A client new to the table opens the window with its first request. */
  lemma {:induction false} AllowedRun(table: Table, reqs: seq<Request>, ip: string, c: int, start: int)
    requires ip != ""
    requires forall i :: 0 <= i < |reqs| ==> reqs[i].ip == Some(ip) && reqs[i].now - start < TimeWindow
    requires ip in table ==> table[ip] == Entry(c, start)
    requires ip !in table ==> c == 0 && (|reqs| == 0 || reqs[0].now == start)
    ensures forall i :: 0 <= i < |reqs| ==> (Run(table, reqs).1[i] == Allowed <==> c + i + 1 <= RateLimit)
    decreases |reqs|
  {
    if |reqs| > 0 {
      var s := Handle(table, reqs[0]);
      assert s.table[ip] == Entry(c + 1, start);
      assert s.decision == Allowed <==> c + 1 <= RateLimit;
      var rest := reqs[1..];
      assert forall i :: 0 <= i < |rest| ==> rest[i] == reqs[i + 1];
      AllowedRun(s.table, rest, ip, c + 1, start);
      var ds := Run(table, reqs).1;
      assert ds == [s.decision] + Run(s.table, rest).1;
      forall i | 1 <= i < |reqs|
        ensures ds[i] == Allowed <==> c + i + 1 <= RateLimit
      {
        assert ds[i] == Run(s.table, rest).1[i - 1];
      }
    }
  }
}
