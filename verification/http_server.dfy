/** The pure decisions inside `baselib.http.HttpServer`: which handlers are
    registered, the variable part of a request path, the "respond once"
    latch of a request context, the status a request ends with, and the
    per-endpoint request metrics.

    The JDK server, its exchanges and streams are not modelled beyond two
    checks they make: `createContext` rejects a path that does not start
    with `/`, and a fixed-length body refuses more bytes than its headers
    declared. A handler is a name with no behaviour, what it does to the
    context is given as the context after it ran, and what it writes is
    given as text. */
module HttpServer {
  import opened Results
  import opened JavaNumbers

  const HTTP_OK: int := 200
  const HTTP_ERROR_CODE: int := 500
  const METRICS_PATH: string := "/metrics"

  // ------------------------------------------------------------- handlers

  /** A handler function: one the caller mapped, or the built-in metrics
      export. */
  datatype Handler = Endpoint(id: nat) | MetricsExport

  /** A path the JDK's `createContext` accepts: non-empty and starting
      with `/`. Any other path is an `IllegalArgumentException`. */
  predicate ValidPath(uri: string) {
    |uri| > 0 && uri[0] == '/'
  }

  /** The message of the JDK context's path check. */
  const ILLEGAL_PATH: string := "Illegal value for path or protocol"

  /** The constructor: `autoAddMetricsEndpoint` on a copy of the mapping,
      the filter that drops null handlers, then `createContext` for each
      remaining path, which fails the whole construction on the first path
      it rejects. */
  function Registered(handlers: map<string, Option<Handler>>): (r: Result<map<string, Handler>>)
    ensures r.Err? <==> exists uri :: uri in handlers && handlers[uri].Some? && !ValidPath(uri)
    ensures r.Err? ==> r.error == ArgumentError(ILLEGAL_PATH)
    ensures r.Ok? ==> forall uri :: uri in r.value <==>
              (uri in handlers && handlers[uri].Some?) || (uri == METRICS_PATH && METRICS_PATH !in handlers)
    ensures r.Ok? ==> forall uri :: uri in r.value ==> ValidPath(uri)
    ensures r.Ok? ==> forall uri :: uri in r.value && uri in handlers ==> r.value[uri] == handlers[uri].value
    ensures r.Ok? && METRICS_PATH !in handlers ==> r.value[METRICS_PATH] == MetricsExport
  {
    var all := if METRICS_PATH in handlers then handlers
               else handlers[METRICS_PATH := Some(MetricsExport)];
    if exists uri :: uri in all && all[uri].Some? && !ValidPath(uri) then
      Err(ArgumentError(ILLEGAL_PATH))
    else
      Ok(map uri | uri in all && all[uri].Some? :: all[uri].value)
  }

  /** `/metrics` is served unless the caller mapped it to null; a caller's
      own `/metrics` handler is the one served. */
  lemma MetricsServed(handlers: map<string, Option<Handler>>)
    ensures Registered(handlers).Ok? ==>
              (METRICS_PATH in Registered(handlers).value <==>
                 METRICS_PATH !in handlers || handlers[METRICS_PATH].Some?)
    ensures Registered(handlers).Ok? && METRICS_PATH in handlers && handlers[METRICS_PATH].Some? ==>
              Registered(handlers).value[METRICS_PATH] == handlers[METRICS_PATH].value
  {
  }

  /** The metrics-override test: a caller's `/metrics` replaces the export. */
  lemma MetricsOverride()
    ensures Registered(map[METRICS_PATH := Some(Endpoint(1))]) == Ok(map[METRICS_PATH := Endpoint(1)])
  {
    var h := map[METRICS_PATH := Some(Endpoint(1))];
    assert h.Keys == {METRICS_PATH};
    assert ValidPath(METRICS_PATH);
    assert Registered(h).Ok?;
    var m := Registered(h).value;
    assert m.Keys == {METRICS_PATH} && m[METRICS_PATH] == Endpoint(1);
    assert m == map[METRICS_PATH := Endpoint(1)];
  }

  /** The simple-output test: four mapped paths, plus the export. */
  lemma MetricsAdded(handlers: map<string, Option<Handler>>)
    requires handlers == map["/" := Some(Endpoint(0)), "/exception" := Some(Endpoint(1)),
                             "/500" := Some(Endpoint(2)), "/nooutput" := Some(Endpoint(3))]
    ensures Registered(handlers).Ok?
    ensures Registered(handlers).value[METRICS_PATH] == MetricsExport
    ensures Registered(handlers).value.Keys == handlers.Keys + {METRICS_PATH}
  {
    assert METRICS_PATH !in handlers;
    assert forall uri :: uri in handlers ==> ValidPath(uri);
  }

  /** A path without its leading slash fails the construction, unless it is
      mapped to null and so never registered. */
  lemma UnslashedPathExample()
    ensures Registered(map["test" := Some(Endpoint(0))]) == Err(ArgumentError(ILLEGAL_PATH))
    ensures Registered(map["" := Some(Endpoint(0))]).Err?
    ensures Registered(map["test" := None]).Ok?
  {
    assert !ValidPath("test") && !ValidPath("");
    assert "test" in map["test" := Some(Endpoint(0))];
    assert "" in map["" := Some(Endpoint(0))];
  }

  // -------------------------------------------------------------- paths

  /** `String.substring(1)` / `substring(0, length - 1)` guards of the
      context constructor: one leading and one trailing `/` are dropped. */
  function StripSlashes(extra: string): (r: string)
    ensures |extra| - 2 <= |r| <= |extra|
  {
    var a := if |extra| > 0 && extra[0] == '/' then extra[1..] else extra;
    if |a| > 0 && a[|a| - 1] == '/' then a[..|a| - 1] else a
  }

  /** The variable path of a request: the request path after the first
      `|mapped|` characters, without one leading and one trailing slash.
      `substring` fails when the request path is shorter than the mapped
      one. */
  function VariablePath(mapped: string, path: string): (r: Result<string>)
    ensures r.Err? <==> |path| < |mapped|
    ensures r.Err? ==> r.error == IndexOutOfBounds
    ensures r.Ok? ==> |r.value| <= |path| - |mapped|
  {
    if |path| < |mapped| then Err(IndexOutOfBounds)
    else Ok(StripSlashes(path[|mapped|..]))
  }

  /** A segment list as a handler sees it: no slash at either end. */
  predicate Unslashed(v: string) {
    v == [] || (v[0] != '/' && v[|v| - 1] != '/')
  }

  function Slash(b: bool): string {
    if b then "/" else ""
  }

  /** Whatever prefix the server matched, with or without the slashes
      around it, the variable path gives back exactly the extra part. */
  lemma VariablePathRoundTrip(mapped: string, v: string, lead: bool, trail: bool)
    requires Unslashed(v)
    ensures VariablePath(mapped, mapped + Slash(lead) + v + Slash(trail)) == Ok(v)
  {
    var path := mapped + Slash(lead) + v + Slash(trail);
    assert path[|mapped|..] == Slash(lead) + v + Slash(trail);
    StripRoundTrip(v, lead, trail);
  }

  lemma StripRoundTrip(v: string, lead: bool, trail: bool)
    requires Unslashed(v)
    ensures StripSlashes(Slash(lead) + v + Slash(trail)) == v
  {
    var e := Slash(lead) + v + Slash(trail);
    if v == [] {
      assert e == Slash(lead) + Slash(trail);
    } else {
      var a := if |e| > 0 && e[0] == '/' then e[1..] else e;
      assert a == v + Slash(trail) by {
        if lead {
          assert e == "/" + (v + Slash(trail));
        } else {
          assert e == v + Slash(trail);
        }
      }
      if trail {
        assert a[..|a| - 1] == v;
      } else {
        assert a == v;
      }
    }
  }

  /** The paths test: requests under `/test` and the variable paths the
      handler saw. */
  lemma PathsExample()
    ensures VariablePath("/test", "/test") == Ok("")
    ensures VariablePath("/test", "/test/v1") == Ok("v1")
    ensures VariablePath("/test", "/test/") == Ok("")
    ensures VariablePath("/test", "/test/v2/") == Ok("v2")
    ensures VariablePath("/test", "/test/v3/v2/v4/") == Ok("v3/v2/v4")
  {
    assert "/test/v1"[5..] == "/v1";
    assert "/test/"[5..] == "/";
    assert "/test/v2/"[5..] == "/v2/";
    assert "/test/v3/v2/v4/"[5..] == "/v3/v2/v4/";
    assert "/v1"[1..] == "v1";
    assert "/v2/"[1..] == "v2/" && "v2/"[..2] == "v2";
    assert "/v3/v2/v4/"[1..] == "v3/v2/v4/" && "v3/v2/v4/"[..8] == "v3/v2/v4";
  }

  // ------------------------------------------------------------- context

  /** A response as the client receives it: a status with its whole body,
      or a status whose headers declared a body length that the body never
      reached, the exchange being aborted (`Short`). */
  datatype Response = Response(status: int, body: string) | Short(status: int, declared: nat)

  /** `ContextImpl`: the mapped path, the variable path, and the response
      sent so far (the `responseSent` flag together with what was sent). */
  datatype Context = Context(mapped: string, variable: string, sent: Option<Response>)

  /** The context constructor: nothing sent yet. */
  function NewContext(mapped: string, path: string): (r: Result<Context>)
    ensures r.Ok? <==> |mapped| <= |path|
    ensures r.Ok? ==> r.value.sent == None && r.value.mapped == mapped &&
                      Ok(r.value.variable) == VariablePath(mapped, path)
  {
    var v :- VariablePath(mapped, path);
    Ok(Context(mapped, v, None))
  }

  // ------------------------------------------------------------ encoding

  /** `String.length()`: characters above U+FFFF take two UTF-16 units. */
  function Utf16Length(s: string): nat
    decreases |s|
  {
    if s == [] then 0 else (if s[0] as int < 0x1_0000 then 1 else 2) + Utf16Length(s[1..])
  }

  /** The bytes `OutputStreamWriter` with `UTF_8` writes for a string. */
  function Utf8Length(s: string): nat
    decreases |s|
  {
    if s == [] then 0 else Utf8Bytes(s[0]) + Utf8Length(s[1..])
  }

  function Utf8Bytes(c: char): nat {
    if c as int < 0x80 then 1 else if c as int < 0x800 then 2 else if c as int < 0x1_0000 then 3 else 4
  }

  predicate Ascii(s: string) {
    forall i :: 0 <= i < |s| ==> s[i] as int < 0x80
  }

  /** UTF-8 never needs fewer bytes than UTF-16 units, and needs exactly as
      many only for ASCII text. */
  lemma {:induction false} EncodedLength(s: string)
    ensures Utf16Length(s) <= Utf8Length(s)
    ensures Utf8Length(s) == Utf16Length(s) <==> Ascii(s)
    decreases |s|
  {
    if s != [] {
      EncodedLength(s[1..]);
      assert Ascii(s) <==> s[0] as int < 0x80 && Ascii(s[1..]) by {
        if s[0] as int < 0x80 && Ascii(s[1..]) {
          forall i | 0 <= i < |s| ensures s[i] as int < 0x80 {
            if i > 0 { assert s[i] == s[1..][i - 1]; }
          }
        }
        if Ascii(s) {
          forall i | 0 <= i < |s| - 1 ensures s[1..][i] as int < 0x80 {
            assert s[1..][i] == s[i + 1];
          }
        }
      }
    }
  }

  // ------------------------------------------------------------- context

  /** `response(body)` on a context that sent nothing: the headers declare
      `body.length()` bytes (zero meaning a chunked body), then the body is
      written as UTF-8. The fixed-length stream refuses bytes beyond the
      declared count, so the body arrives only when its UTF-8 form is
      exactly that long; otherwise the client is left with the headers. */
  function Sent(body: string): (r: Response)
    ensures r.status == HTTP_OK
    ensures r.Response? <==> Utf8Length(body) == Utf16Length(body)
    ensures r.Response? ==> r.body == body
    ensures r.Short? ==> r.declared == Utf16Length(body) < Utf8Length(body)
  {
    EncodedLength(body);
    if Ascii(body) then Response(HTTP_OK, body) else Short(HTTP_OK, Utf16Length(body))
  }

  /** The ways a handler can answer through its context. */
  datatype Action = Respond(body: string) | Write(text: string)

  /** `response(body)` and `writer(consumer)` (the consumer given as the
      text it writes): both send status 200, and only the first call of
      either sends anything. `writer` declares a chunked body, so all of its
      text arrives. */
  function Act(ctx: Context, a: Action): (r: Context)
    ensures r.mapped == ctx.mapped && r.variable == ctx.variable
    ensures ctx.sent.Some? ==> r == ctx
    ensures ctx.sent.None? && a.Write? ==> r.sent == Some(Response(HTTP_OK, a.text))
    ensures ctx.sent.None? && a.Respond? ==> r.sent.Some? && r.sent.value.status == HTTP_OK
    ensures ctx.sent.None? && a.Respond? ==>
              (r.sent == Some(Response(HTTP_OK, a.body)) <==> Utf8Length(a.body) == Utf16Length(a.body))
  {
    if ctx.sent.Some? then ctx
    else match a
      case Respond(body) => ctx.(sent := Some(Sent(body)))
      case Write(text) => ctx.(sent := Some(Response(HTTP_OK, text)))
  }

  /** A handler's calls, in order. */
  function ActAll(ctx: Context, actions: seq<Action>): (r: Context)
    ensures r.mapped == ctx.mapped && r.variable == ctx.variable
    ensures ctx.sent.Some? ==> r.sent == ctx.sent
    decreases |actions|
  {
    if actions == [] then ctx else ActAll(Act(ctx, actions[0]), actions[1..])
  }

  /** The latch: after the first call, later ones change nothing, so the
      response is the first call's. */
  lemma {:induction false} FirstCallWins(ctx: Context, actions: seq<Action>)
    requires ctx.sent.None? && actions != []
    ensures ActAll(ctx, actions).sent ==
              Some(if actions[0].Respond? then Sent(actions[0].body) else Response(HTTP_OK, actions[0].text))
  {
    var c1 := Act(ctx, actions[0]);
    assert ActAll(ctx, actions) == ActAll(c1, actions[1..]);
  }

  // ------------------------------------------------------------- exchange

  /** How the handler function ended: it returned a (nullable) string, or
      threw `HttpStatus(n)`, or threw another runtime exception. */
  datatype Outcome = Returned(value: Option<string>) | Status(code: int) | Failed

  /** A non-empty returned string, which `wrapExchange` sends. */
  predicate ReturnsText(outcome: Outcome) {
    outcome.Returned? && outcome.value.Some? && outcome.value.value != ""
  }

  /** `wrapExchange`: `ctx` is the context after the handler ran. A
      non-empty returned string is sent as the body; a request that sent
      nothing ends as 200 with an empty body; `HttpStatus(n)` ends as `n`,
      any other failure as 500. Once something was sent, the later send
      fails and the client keeps the first response; this includes a body
      cut short, whose exception makes the 500 fallback fail as well. */
  function Exchange(ctx: Context, outcome: Outcome): (r: Response)
    ensures ctx.sent.Some? ==> r == ctx.sent.value
    ensures ctx.sent.None? ==> r.status == match outcome
                                             case Returned(_) => HTTP_OK
                                             case Status(n) => n
                                             case Failed => HTTP_ERROR_CODE
    ensures ctx.sent.None? && ReturnsText(outcome) ==>
              (r == Response(HTTP_OK, outcome.value.value) <==>
                 Utf8Length(outcome.value.value) == Utf16Length(outcome.value.value))
    ensures ctx.sent.None? && !ReturnsText(outcome) ==> r.Response? && r.body == ""
  {
    match outcome
    case Returned(v) =>
      var c := if v.Some? && v.value != "" then Act(ctx, Respond(v.value)) else ctx;
      if c.sent.None? then Response(HTTP_OK, "") else c.sent.value
    case Status(n) => if ctx.sent.Some? then ctx.sent.value else Response(n, "")
    case Failed => if ctx.sent.Some? then ctx.sent.value else Response(HTTP_ERROR_CODE, "")
  }

  /** For any text a handler returns on a context that sent nothing, the
      client gets 200 with exactly that text if and only if the text is
      ASCII; otherwise it gets the 200 headers declaring `length()` bytes. */
  lemma ExchangeDelivers(ctx: Context, t: string)
    requires ctx.sent.None?
    ensures Exchange(ctx, Returned(Some(t))) == Response(HTTP_OK, t) <==> Ascii(t)
    ensures !Ascii(t) ==> Exchange(ctx, Returned(Some(t))) == Short(HTTP_OK, Utf16Length(t))
  {
    EncodedLength(t);
    if t == "" {
      assert Ascii(t);
    }
  }

  /** The simple-output test, path by path. */
  lemma SimpleOutputExample(ctx: Context)
    requires ctx.sent.None?
    ensures Exchange(ctx, Returned(Some("hello world"))) == Response(200, "hello world")
    ensures Exchange(ctx, Failed).status == 500
    ensures Exchange(ctx, Status(500)).status == 500
  {
    var t := "hello world";
    assert Ascii(t) by {
      forall i | 0 <= i < |t| ensures t[i] as int < 0x80 {
      }
    }
    ExchangeDelivers(ctx, t);
  }

  /** The simple-output test's handler that returns the empty string. */
  lemma EmptyOutputExample(ctx: Context)
    requires ctx.sent.None?
    ensures Exchange(ctx, Returned(Some(""))) == Response(200, "")
  {
  }

  /** A returned `héllo`: five UTF-16 units declared, six UTF-8 bytes to
      write, so the body never arrives. */
  lemma NonAsciiExample(ctx: Context)
    requires ctx.sent.None?
    ensures Exchange(ctx, Returned(Some("h\U{00E9}llo"))) == Short(200, 5)
  {
    ExchangeDelivers(ctx, "h\U{00E9}llo");
    assert !Ascii("h\U{00E9}llo") by { assert "h\U{00E9}llo"[1] as int == 0xE9; }
  }

  /** The writer test: a handler that writes through the context and
      returns the empty string sends what it wrote. */
  lemma WriterExample(ctx: Context)
    requires ctx.sent.None?
    ensures Exchange(ActAll(ctx, [Write("test")]), Returned(Some(""))) == Response(200, "test")
  {
    FirstCallWins(ctx, [Write("test")]);
  }

  // -------------------------------------------------------------- metrics

  /** `AtomicLong` arithmetic: two's-complement wrap-around to 64 bits. */
  function Wrap64(n: int): (r: int)
    ensures InLong(r)
    ensures InLong(n) ==> r == n
  {
    (n - LONG_MIN) % WORD + LONG_MIN
  }

  const WORD: int := 0x1_0000_0000_0000_0000

  lemma WrapAdd(a: int, b: int)
    ensures Wrap64(Wrap64(a) + b) == Wrap64(a + b)
  {
    var q := (a - LONG_MIN) / WORD;
    assert Wrap64(a) + b - LONG_MIN == (a + b - LONG_MIN) + (-q) * WORD;
    ModPeriod(a + b - LONG_MIN, -q);
  }

  /** Adding whole multiples of 2^64 does not change the remainder. */
  lemma {:induction false} ModPeriod(y: int, j: int)
    ensures (y + j * WORD) % WORD == y % WORD
    decreases if j < 0 then -j else j
  {
    if j > 0 {
      ModPeriod(y, j - 1);
      assert y + j * WORD == (y + (j - 1) * WORD) + WORD;
    } else if j < 0 {
      ModPeriod(y, j + 1);
      assert y + j * WORD == (y + (j + 1) * WORD) - WORD;
    }
  }

  /** The four counters of `RequestLifecycleMetrics`. */
  datatype Metrics = Metrics(count: int, sum: int, min: int, max: int)

  /** Every counter holds a `long`. */
  predicate Longs(m: Metrics) {
    InLong(m.count) && InLong(m.sum) && InLong(m.min) && InLong(m.max)
  }

  /** Fresh counters: the minimum and maximum start at the opposite ends
      of the `long` range. */
  const INITIAL: Metrics := Metrics(0, 0, LONG_MAX, LONG_MIN)

  function Min(a: int, b: int): int { if b < a then b else a }

  function Max(a: int, b: int): int { if b > a then b else a }

  /** `measure(nanos)`. */
  function Measure(m: Metrics, nanos: int): (r: Metrics)
    ensures r.min <= m.min && r.min <= nanos && (r.min == m.min || r.min == nanos)
    ensures r.max >= m.max && r.max >= nanos && (r.max == m.max || r.max == nanos)
  {
    Metrics(Wrap64(m.count + 1), Wrap64(m.sum + nanos), Min(m.min, nanos), Max(m.max, nanos))
  }

  /** A series of measurements, oldest first. */
  function MeasureAll(m: Metrics, ns: seq<int>): (r: Metrics)
    decreases |ns|
  {
    if ns == [] then m else MeasureAll(Measure(m, ns[0]), ns[1..])
  }

  function Sum(ns: seq<int>): int
    decreases |ns|
  {
    if ns == [] then 0 else ns[0] + Sum(ns[1..])
  }

  function Minimum(ns: seq<int>): int
    requires ns != []
    decreases |ns|
  {
    if |ns| == 1 then ns[0] else Min(ns[0], Minimum(ns[1..]))
  }

  function Maximum(ns: seq<int>): int
    requires ns != []
    decreases |ns|
  {
    if |ns| == 1 then ns[0] else Max(ns[0], Maximum(ns[1..]))
  }

  /** After a series of measurements the counters hold the count and the
      sum (each wrapped to 64 bits) and the least and greatest value. */
  lemma {:induction false} MeasureAllTotals(m: Metrics, ns: seq<int>)
    requires Longs(m) && forall i :: 0 <= i < |ns| ==> InLong(ns[i])
    ensures MeasureAll(m, ns).count == Wrap64(m.count + |ns|)
    ensures MeasureAll(m, ns).sum == Wrap64(m.sum + Sum(ns))
    ensures ns != [] ==> MeasureAll(m, ns).min == Min(m.min, Minimum(ns))
    ensures ns != [] ==> MeasureAll(m, ns).max == Max(m.max, Maximum(ns))
    ensures ns == [] ==> MeasureAll(m, ns) == m
    decreases |ns|
  {
    if ns != [] {
      var m' := Measure(m, ns[0]);
      MeasureAllTotals(m', ns[1..]);
      WrapAdd(m.count + 1, |ns| - 1);
      WrapAdd(m.sum + ns[0], Sum(ns[1..]));
    }
  }

  /** From fresh counters, `n` measurements of valid `long` values. */
  lemma MeasureFromStart(ns: seq<int>)
    requires |ns| <= LONG_MAX && forall i :: 0 <= i < |ns| ==> InLong(ns[i])
    ensures MeasureAll(INITIAL, ns).count == |ns|
    ensures MeasureAll(INITIAL, ns).sum == Wrap64(Sum(ns))
    ensures ns != [] ==> MeasureAll(INITIAL, ns).min == Minimum(ns) && MeasureAll(INITIAL, ns).max == Maximum(ns)
  {
    MeasureAllTotals(INITIAL, ns);
    if ns != [] {
      MinimumIn(ns);
      MaximumIn(ns);
    }
  }

  lemma {:induction false} MinimumIn(ns: seq<int>)
    requires ns != []
    ensures exists i :: 0 <= i < |ns| && Minimum(ns) == ns[i]
    decreases |ns|
  {
    if |ns| > 1 {
      MinimumIn(ns[1..]);
      var i :| 0 <= i < |ns[1..]| && Minimum(ns[1..]) == ns[1..][i];
      assert Minimum(ns) == ns[0] || Minimum(ns) == ns[i + 1];
    } else {
      assert Minimum(ns) == ns[0];
    }
  }

  lemma {:induction false} MaximumIn(ns: seq<int>)
    requires ns != []
    ensures exists i :: 0 <= i < |ns| && Maximum(ns) == ns[i]
    decreases |ns|
  {
    if |ns| > 1 {
      MaximumIn(ns[1..]);
      var i :| 0 <= i < |ns[1..]| && Maximum(ns[1..]) == ns[1..][i];
      assert Maximum(ns) == ns[0] || Maximum(ns) == ns[i + 1];
    } else {
      assert Maximum(ns) == ns[0];
    }
  }

  /** `makeMetricLabel`: `name{uri="<uri>"}`. */
  function MetricLabel(name: string, uri: string): (r: string)
    ensures |r| == |name| + |uri| + 8
    ensures r[..|name|] == name && r[|name|..|name| + 6] == "{uri=\""
    ensures r[|name| + 6..|name| + 6 + |uri|] == uri && r[|name| + 6 + |uri|..] == "\"}"
  {
    name + "{uri=\"" + uri + "\"}"
  }

  /** The text a counter reports; the extremes report "0" while still at
      their starting sentinel. */
  function MinText(m: Metrics): (t: string)
    ensures m.min == LONG_MAX ==> t == "0"
    ensures m.min != LONG_MAX ==> t == IntToString(m.min)
  {
    if m.min == LONG_MAX then "0" else IntToString(m.min)
  }

  function MaxText(m: Metrics): (t: string)
    ensures m.max == LONG_MIN ==> t == "0"
    ensures m.max != LONG_MIN ==> t == IntToString(m.max)
  {
    if m.max == LONG_MIN then "0" else IntToString(m.max)
  }

  /** `register`: the four labelled metrics of one endpoint. */
  function Report(m: Metrics, uri: string): (r: seq<(string, string)>)
    ensures |r| == 4
    ensures r[0] == (MetricLabel("httpserver_request_count", uri), IntToString(m.count))
    ensures r[1] == (MetricLabel("httpserver_request_nanos_sum", uri), IntToString(m.sum))
    ensures r[2] == (MetricLabel("httpserver_request_nanos_min", uri), MinText(m))
    ensures r[3] == (MetricLabel("httpserver_request_nanos_max", uri), MaxText(m))
  {
    [(MetricLabel("httpserver_request_count", uri), IntToString(m.count)),
     (MetricLabel("httpserver_request_nanos_sum", uri), IntToString(m.sum)),
     (MetricLabel("httpserver_request_nanos_min", uri), MinText(m)),
     (MetricLabel("httpserver_request_nanos_max", uri), MaxText(m))]
  }

  /** Before any request every metric of an endpoint reads "0". */
  lemma ReportBeforeRequests(uri: string)
    ensures forall i :: 0 <= i < 4 ==> Report(INITIAL, uri)[i].1 == "0"
  {
    assert NatToString(0) == "0";
  }

  /** After requests, the minimum and maximum report the least and greatest
      duration, except that a value equal to the sentinel itself reads "0". */
  lemma ReportAfterRequests(ns: seq<int>, uri: string)
    requires ns != [] && |ns| <= LONG_MAX && forall i :: 0 <= i < |ns| ==> InLong(ns[i])
    ensures Report(MeasureAll(INITIAL, ns), uri)[0].1 == IntToString(|ns|)
    ensures Minimum(ns) != LONG_MAX ==> Report(MeasureAll(INITIAL, ns), uri)[2].1 == IntToString(Minimum(ns))
    ensures Maximum(ns) != LONG_MIN ==> Report(MeasureAll(INITIAL, ns), uri)[3].1 == IntToString(Maximum(ns))
  {
    MeasureFromStart(ns);
  }
}
