/** The transport of the API client: the token hooks around each exchange, the
    ordered side effects one request performs on its `XMLHttpRequest`, the
    decision taken when the exchange completes, the four verbs and `toFormData`.

    The browser objects are modelled by what the service does to them: an
    `Exchange` records the calls made on the request object, a `FormData` the
    entries appended to it. The credential service is reduced to the one token it
    stores, a field of `ApiService`; a `null` token and a missing response header
    are both represented by the empty string, which JavaScript treats as falsy
    like `null`. `JSON.parse` is an input (its outcome is handed to the completion
    handler) and `JSON.stringify` a parameter. */
module ApiService {
  import opened Wrappers
  import opened JsValue
  import opened UriEncoding
  import opened QueryString

  /** The header that carries the token both ways. */
  const TokenHeader := "X-Auth-Token"

  /** `XMLHttpRequest.DONE`. */
  const DONE := 4

  /** A call the service makes on the request object. */
  datatype Effect =
    | Open(verb: string, url: string)
    | SetHeader(name: string, value: string)
      /** `send(body)`; `None` is `send(null)` */
    | Send(body: Option<string>)

  /** What `JSON.parse(responseText)` does: returns a value or throws a SyntaxError. */
  datatype ParseResult = Parsed(value: Value) | SyntaxError(message: string)

  /** How the request's promise settles. */
  datatype Settlement =
    | Resolve(data: Value)
      /** `reject(data.error)`: the server's error value itself */
    | Reject(reason: Value)
      /** `reject(new Error(message))` */
    | RejectError(message: string)

  /** An observable step of the completion handler, in the order it happens. */
  datatype Step = StoreToken(token: string) | Settle(outcome: Settlement)

  /** `xs` in reverse order: the order of a `for (i = xs.length; i--;)` loop. */
  function Reversed<T>(xs: seq<T>): seq<T> {
    if xs == [] then [] else Reversed(xs[1..]) + [xs[0]]
  }

  /** A reversed sequence holds every element exactly once, the last first. */
  lemma {:induction false} ReversedIndex<T>(xs: seq<T>)
    ensures |Reversed(xs)| == |xs|
    ensures forall m :: 0 <= m < |xs| ==> Reversed(xs)[m] == xs[|xs| - 1 - m]
  {
    if xs != [] {
      ReversedIndex(xs[1..]);
    }
  }

  /** Counting `i` down by one more index adds that element at the end. */
  lemma ReversedStep<T>(xs: seq<T>, i: nat)
    requires 1 <= i <= |xs|
    ensures Reversed(xs[i - 1..]) == Reversed(xs[i..]) + [xs[i - 1]]
  {
    assert xs[i - 1..][1..] == xs[i..];
  }

  /** `setRequestHeader` for each name and value, in the order given. */
  function SetHeaders(hs: seq<(string, string)>): (r: seq<Effect>)
    ensures |r| == |hs|
  {
    if hs == [] then [] else [SetHeader(hs[0].0, hs[0].1)] + SetHeaders(hs[1..])
  }

  lemma {:induction false} SetHeadersAppend(a: seq<(string, string)>, b: seq<(string, string)>)
    ensures SetHeaders(a + b) == SetHeaders(a) + SetHeaders(b)
  {
    if a == [] {
      assert a + b == b;
    } else {
      assert (a + b)[1..] == a[1..] + b;
      SetHeadersAppend(a[1..], b);
    }
  }

  lemma {:induction false} SetHeadersIndex(hs: seq<(string, string)>)
    ensures forall m :: 0 <= m < |hs| ==> SetHeaders(hs)[m] == SetHeader(hs[m].0, hs[m].1)
  {
    if hs != [] {
      SetHeadersIndex(hs[1..]);
    }
  }

  /** What `onBeforeSend` sets for the stored token: the token header when the
      token is truthy, nothing otherwise. */
  function AuthHeaders(token: string): seq<Effect> {
    if token != "" then [SetHeader(TokenHeader, token)] else []
  }

  /** The token stored after `onAfterReceive` saw `header`: a truthy header
      replaces the stored token, a falsy one leaves it. */
  function RefreshedToken(stored: string, header: string): string {
    if header != "" then header else stored
  }

  /** The caller's headers, `null` standing for none. */
  function CallerHeaders(headers: Option<seq<(string, string)>>): seq<(string, string)> {
    if headers.Some? then headers.value else []
  }

  /** `data ? JSON.stringify(data) : null`. */
  function Body(data: Value, stringify: Value -> string): Option<string> {
    if Truthy(data) then Some(stringify(data)) else None
  }

  /** Everything `xhr` does to the request object, in order: open, the token
      header, the caller's headers last key first, send. */
  function RequestTrace(endPoint: string, token: string, verb: string, edge: string,
                        headers: Option<seq<(string, string)>>, body: Option<string>): seq<Effect>
  {
    [Open(verb, endPoint + "/" + edge)] + AuthHeaders(token)
      + SetHeaders(Reversed(CallerHeaders(headers))) + [Send(body)]
  }

  /** The request opens `endPoint/edge` first and sends last; in between it sets
      the token header exactly when the token is truthy, then every caller header
      once, from the last key to the first. */
  lemma RequestTraceOrder(endPoint: string, token: string, verb: string, edge: string,
                          headers: Option<seq<(string, string)>>, body: Option<string>)
    ensures var t := RequestTrace(endPoint, token, verb, edge, headers, body);
      var hs := CallerHeaders(headers);
      var a := |AuthHeaders(token)|;
      && |t| == 2 + a + |hs|
      && t[0] == Open(verb, endPoint + "/" + edge)
      && (a == 1 <==> token != "")
      && (token != "" ==> t[1] == SetHeader(TokenHeader, token))
      && (forall k :: 1 + a <= k < 1 + a + |hs| ==> t[k] == SetHeader(hs[|hs| + a - k].0, hs[|hs| + a - k].1))
      && t[|t| - 1] == Send(body)
  {
    var hs := CallerHeaders(headers);
    var a := AuthHeaders(token);
    var r := SetHeaders(Reversed(hs));
    ReversedIndex(hs);
    SetHeadersIndex(Reversed(hs));
    var t := RequestTrace(endPoint, token, verb, edge, headers, body);
    assert t == [Open(verb, endPoint + "/" + edge)] + a + r + [Send(body)];
    assert forall k :: 1 + |a| <= k < 1 + |a| + |hs| ==> t[k] == r[k - 1 - |a|];
  }

  /** After a response carries a truthy token, the next request sends exactly that
      token under the same header name. */
  lemma RotatedTokenSent(stored: string, header: string)
    requires header != ""
    ensures AuthHeaders(RefreshedToken(stored, header)) == [SetHeader(TokenHeader, header)]
  {
  }

  /** What happens once `JSON.parse` has run: a value that is truthy and has a
      truthy `error` rejects with that `error`; any other value, `null` included,
      resolves; a parse failure rejects with `responseText [message]`. */
  function Decide(responseText: string, parsed: ParseResult): Settlement {
    match parsed
    case SyntaxError(m) => RejectError(responseText + " [" + m + "]")
    case Parsed(data) =>
      if Truthy(data) && Truthy(Lookup(data, "error")) then Reject(Lookup(data, "error"))
      else Resolve(data)
  }

  /** The three outcomes and exactly when each happens. */
  lemma DecideCases(responseText: string, parsed: ParseResult)
    ensures Decide(responseText, parsed).Resolve? <==>
      parsed.Parsed? && !(Truthy(parsed.value) && Truthy(Lookup(parsed.value, "error")))
    ensures Decide(responseText, parsed).Resolve? ==> Decide(responseText, parsed).data == parsed.value
    ensures Decide(responseText, parsed).Reject? <==>
      parsed.Parsed? && Truthy(parsed.value) && Truthy(Lookup(parsed.value, "error"))
    ensures Decide(responseText, parsed).Reject? ==>
      Truthy(Decide(responseText, parsed).reason)
      && Decide(responseText, parsed).reason == Lookup(parsed.value, "error")
    ensures Decide(responseText, parsed).RejectError? <==> parsed.SyntaxError?
    ensures parsed.SyntaxError? ==>
      Decide(responseText, parsed) == RejectError(responseText + " [" + parsed.message + "]")
  {
  }

  /** A body `{"error": e}` with a truthy `e` rejects with `e` itself, unwrapped. */
  lemma ErrorFieldRejects(responseText: string, e: Value, rest: seq<(string, Value)>)
    requires Truthy(e)
    ensures Decide(responseText, Parsed(Obj([("error", e)] + rest))) == Reject(e)
  {
  }

  /** `JSON.parse` returning `null` resolves with `null`. */
  lemma NullResolves(responseText: string)
    ensures Decide(responseText, Parsed(Null)) == Resolve(Null)
  {
  }

  /** What the token refresh contributes to the completion steps. */
  function RefreshSteps(header: string): seq<Step> {
    if header != "" then [StoreToken(header)] else []
  }

  /** The steps of the `onreadystatechange` handler: none before DONE; at DONE
      the token refresh for a status of exactly 200, then the settlement. */
  function CompletionSteps(readyState: int, status: int, header: string,
                           responseText: string, parsed: ParseResult): seq<Step>
  {
    if readyState != DONE then []
    else (if status == 200 then RefreshSteps(header) else []) + [Settle(Decide(responseText, parsed))]
  }

  /** The handler settles exactly once, at DONE, as its last step, and whatever the
      status; a token is stored only for status 200 and a truthy header, and
      before the settlement. */
  lemma CompletionOrder(readyState: int, status: int, header: string,
                        responseText: string, parsed: ParseResult)
    ensures var s := CompletionSteps(readyState, status, header, responseText, parsed);
      && (readyState != DONE <==> s == [])
      && (readyState == DONE ==> s[|s| - 1] == Settle(Decide(responseText, parsed)))
      && (forall m :: 0 <= m < |s| - 1 ==> s[m] == StoreToken(header))
      && (|s| == 2 <==> readyState == DONE && status == 200 && header != "")
  {
  }

  /** The `FormData` object `toFormData` fills. */
  class FormData {
    var entries: seq<(string, Value)>

    constructor ()
      ensures entries == []
    {
      entries := [];
    }

    /** `fd.append(name, value)`. */
    method Append(name: string, value: Value)
      modifies this
      ensures entries == old(entries) + [(name, value)]
    {
      entries := entries + [(name, value)];
    }
  }

  /** `ApiService.toFormData(data)`: every own key of `data` appended once, from
      the last key to the first. The parameter is typed `Object`, so `null` and
      `undefined` are not passed. */
  method ToFormData(data: Value) returns (fd: FormData)
    requires !data.Null? && !data.Undefined?
    ensures fresh(fd)
    ensures fd.entries == Reversed(OwnEntries(data))
  {
    fd := new FormData();
    var keys := OwnEntries(data);
    var i := |keys|;
    while i != 0  // `i--` as the loop test
      invariant 0 <= i <= |keys|
      invariant fd.entries == Reversed(keys[i..])
    {
      i := i - 1;
      ReversedStep(keys, i + 1);
      fd.Append(keys[i].0, keys[i].1);
    }
    assert keys[0..] == keys;
  }

  /** The request object of one exchange, as the calls made on it. */
  class Exchange {
    var trace: seq<Effect>

    constructor ()
      ensures trace == []
    {
      trace := [];
    }

    method Open(verb: string, url: string)
      modifies this
      ensures trace == old(trace) + [Effect.Open(verb, url)]
    {
      trace := trace + [Effect.Open(verb, url)];
    }

    method SetRequestHeader(name: string, value: string)
      modifies this
      ensures trace == old(trace) + [SetHeader(name, value)]
    {
      trace := trace + [SetHeader(name, value)];
    }

    method Send(body: Option<string>)
      modifies this
      ensures trace == old(trace) + [Effect.Send(body)]
    {
      trace := trace + [Effect.Send(body)];
    }
  }

  /** The path `get` requests: `edge`, followed by `?` and the query string when
      `data` is truthy; `None` when building the query string throws. */
  function GetEdge(edge: string, data: Value): Option<string>
    requires !Truthy(data) || !Build("", data).Diverges?
  {
    if !Truthy(data) then Some(edge)
    else if Build("", data).Throws? then None
    else Some(edge + "?" + QueryText(Build("", data).pairs))
  }

  lemma GetEdgeIs(edge: string, data: Value, queryString: string)
    requires !Truthy(data) ==> queryString == ""
    requires Truthy(data) ==> Build("", data).Done? && queryString == "?" + QueryText(Build("", data).pairs)
    ensures GetEdge(edge, data) == Some(edge + queryString)
  {
    if !Truthy(data) {
      assert edge + queryString == edge;
    } else {
      var q := QueryText(Build("", data).pairs);
      assert edge + "?" + q == edge + ("?" + q);
    }
  }

  /** The query after `?` reads back as the pairs the encoder visited. */
  lemma GetEdgeQuery(edge: string, data: Value)
    requires Truthy(data) && Build("", data).Done?
    ensures GetEdge(edge, data).Some?
    ensures var u := GetEdge(edge, data).value;
      u[..|edge| + 1] == edge + "?"
      && DecodeQuery(u[|edge| + 1..]) == Some(Build("", data).pairs)
  {
    var q := QueryText(Build("", data).pairs);
    var u := edge + "?" + q;
    assert u[..|edge| + 1] == edge + "?";
    assert u[|edge| + 1..] == q;
    QueryRoundTrip(Build("", data).pairs);
  }

  /** The path `del` requests: `edge/id`. */
  function DelEdge(edge: string, id: int): string {
    edge + "/" + IntToString(id)
  }

  /** The decimal number a string of digits spells. */
  function ParseNat(s: string): nat
    requires forall i :: 0 <= i < |s| ==> '0' <= s[i] <= '9'
  {
    if s == [] then 0 else 10 * ParseNat(s[..|s| - 1]) + (s[|s| - 1] as int - '0' as int)
  }

  lemma {:induction false} ParseNatToString(n: nat)
    ensures ParseNat(NatToString(n)) == n
  {
    if n >= 10 {
      var s := NatToString(n);
      ParseNatToString(n / 10);
      assert s[..|s| - 1] == NatToString(n / 10);
    }
  }

  /** The text after the last `/`. */
  function LastSegment(s: string): string {
    if s == [] then "" else if s[|s| - 1] == '/' then "" else LastSegment(s[..|s| - 1]) + [s[|s| - 1]]
  }

  lemma {:induction false} LastSegmentAfterSlash(a: string, b: string)
    requires forall i :: 0 <= i < |b| ==> b[i] != '/'
    ensures LastSegment(a + "/" + b) == b
    decreases |b|
  {
    var s := a + "/" + b;
    if b == [] {
      assert s[|s| - 1] == '/';
    } else {
      assert s[..|s| - 1] == a + "/" + b[..|b| - 1];
      LastSegmentAfterSlash(a, b[..|b| - 1]);
      assert b[..|b| - 1] + [b[|b| - 1]] == b;
    }
  }

  /** The last path segment of `del`'s path is the id, in decimal, and reads back
      as the id. */
  lemma DelEdgeId(edge: string, id: int)
    ensures LastSegment(DelEdge(edge, id)) == IntToString(id)
    ensures id >= 0 ==> ParseNat(LastSegment(DelEdge(edge, id))) == id
    ensures id < 0 ==> LastSegment(DelEdge(edge, id)) == "-" + NatToString(-id)
  {
    var t := IntToString(id);
    assert forall i :: 0 <= i < |t| ==> t[i] != '/';
    LastSegmentAfterSlash(edge, t);
    if id >= 0 {
      ParseNatToString(id);
    }
  }

  /** The JSON content type `post` and `put` send. */
  const JsonHeaders: seq<(string, string)> := [("Content-Type", "application/json")]

  /** The service: the API origin from the configuration and the token the
      credential service holds. */
  class ApiService {
    const endPoint: string
    var token: string

    constructor (endPoint: string, token: string)
      ensures this.endPoint == endPoint && this.token == token
    {
      this.endPoint := endPoint;
      this.token := token;
    }

    /** `onBeforeSend`: sets the token header exactly when the token is truthy. */
    method OnBeforeSend(x: Exchange)
      modifies x
      ensures x.trace == old(x.trace) + AuthHeaders(token)
    {
      var t := token;
      if t != "" {
        x.SetRequestHeader(TokenHeader, t);
      }
    }

    /** `onAfterReceive`, given `xhr.getResponseHeader('X-Auth-Token')`: a truthy
        header replaces the stored token. */
    method OnAfterReceive(header: string) returns (steps: seq<Step>)
      modifies this
      ensures token == RefreshedToken(old(token), header)
      ensures steps == RefreshSteps(header)
    {
      steps := [];
      if header != "" {
        token := header;
        steps := [StoreToken(header)];
      }
    }

    /** `xhr(method, edge, data, headers)` up to `send`; `stringify` stands for
        `JSON.stringify`, which only a truthy `data` reaches. */
    method Xhr(verb: string, edge: string, data: Value, stringify: Value -> string,
               headers: Option<seq<(string, string)>>) returns (x: Exchange)
      ensures fresh(x)
      ensures x.trace == RequestTrace(endPoint, token, verb, edge, headers, Body(data, stringify))
    {
      x := new Exchange();
      x.Open(verb, endPoint + "/" + edge);
      OnBeforeSend(x);
      if headers.Some? {
        SetCallerHeaders(x, headers.value);
      }
      x.Send(if Truthy(data) then Some(stringify(data)) else None);
    }

    /** The loop over the caller's headers:
        `for (headerKeys = Object.keys(headers), i = headerKeys.length; i--;)`. */
    method SetCallerHeaders(x: Exchange, hs: seq<(string, string)>)
      modifies x
      ensures x.trace == old(x.trace) + SetHeaders(Reversed(hs))
    {
      var i := |hs|;
      while i != 0  // `i--` as the loop test
        invariant 0 <= i <= |hs|
        invariant x.trace == old(x.trace) + SetHeaders(Reversed(hs[i..]))
      {
        i := i - 1;
        ReversedStep(hs, i + 1);
        SetHeadersAppend(Reversed(hs[i + 1..]), [hs[i]]);
        x.SetRequestHeader(hs[i].0, hs[i].1);
      }
      assert hs[0..] == hs;
    }

    /** The `onreadystatechange` handler: at DONE, a 200 response first refreshes
        the token, then the parse outcome settles the promise, whatever the status. */
    method OnReadyStateChange(readyState: int, status: int, header: string,
                              responseText: string, parsed: ParseResult) returns (steps: seq<Step>)
      modifies this
      ensures token == if readyState == DONE && status == 200 then RefreshedToken(old(token), header)
                       else old(token)
      ensures steps == CompletionSteps(readyState, status, header, responseText, parsed)
    {
      steps := [];
      if readyState == DONE {
        if status == 200 {
          steps := OnAfterReceive(header);
        }
        steps := steps + [Settle(Decide(responseText, parsed))];
      }
    }

    /** `get(edge, data)`: `null` when `param` throws, which happens before any
        request is made. */
    method Get(edge: string, data: Value) returns (x: Exchange?)
      requires !Truthy(data) || !Build("", data).Diverges?
      ensures x == null <==> GetEdge(edge, data).None?
      ensures x != null ==>
        fresh(x) && x.trace == RequestTrace(endPoint, token, "GET", GetEdge(edge, data).value, None, None)
    {
      var queryString := "";
      if Truthy(data) {
        var q := Param(data);
        if q.None? {
          return null;
        }
        queryString := "?" + q.value;
      }
      GetEdgeIs(edge, data, queryString);
      x := Xhr("GET", edge + queryString, Null, v => "", None);
    }

    /** `post(edge, data)`: the JSON body with its content type. */
    method Post(edge: string, data: Value, stringify: Value -> string) returns (x: Exchange)
      ensures fresh(x)
      ensures x.trace == RequestTrace(endPoint, token, "POST", edge, Some(JsonHeaders), Body(data, stringify))
    {
      x := Xhr("POST", edge, data, stringify, Some(JsonHeaders));
    }

    /** `put(edge, data)`. */
    method Put(edge: string, data: Value, stringify: Value -> string) returns (x: Exchange)
      ensures fresh(x)
      ensures x.trace == RequestTrace(endPoint, token, "PUT", edge, Some(JsonHeaders), Body(data, stringify))
    {
      x := Xhr("PUT", edge, data, stringify, Some(JsonHeaders));
    }

    /** `del(edge, id)`: no body, no caller headers. */
    method Del(edge: string, id: int) returns (x: Exchange)
      ensures fresh(x)
      ensures x.trace == RequestTrace(endPoint, token, "DELETE", DelEdge(edge, id), None, None)
    {
      x := Xhr("DELETE", DelEdge(edge, id), Null, v => "", None);
    }
  }
}
