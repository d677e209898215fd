# ApiService transport and query encoder, modelled in Dafny

This project models the core of the browser API client in
`src/client/app/service/ApiService.ts`. It has four parts.

- **Query-string encoder.** `param`, `buildParams`, `add` and `isArray` are a port
  of jQuery.param. They walk a nested value and carry a key prefix in bracket
  notation. They append one `encodeURIComponent(key)=encodeURIComponent(value)`
  entry per leaf to a shared array. The entries are then joined with `&`, and every
  `%20` is written as `+`.
- **Token hooks.**
  - `onBeforeSend` sets the `X-Auth-Token` request header from the stored token.
  - `onAfterReceive` stores the token a response carries.
- **One exchange.**
  - `xhr` performs an ordered series of calls on the request object: open, the
    token header, the caller's headers and send.
  - Its `onreadystatechange` handler refreshes the token on a 200 response. It
    then settles the promise from the outcome of `JSON.parse`.
- **Verbs and `toFormData`.** `get`, `post`, `put` and `del` build the path, the
  body and the headers. `toFormData` appends the keys of an object.

Modules:

- `Wrappers` holds `Option`.
- `JsValue` holds the JavaScript values the service handles, with truthiness,
  `typeof`, `String()`, `Object.keys` and property lookup.
- `UriEncoding` holds `encodeURIComponent` over UTF-8 and the `%20` → `+` rewrite. It
  also holds a decoder that inverts both.
- `QueryString` holds the encoder.
  - The spec functions are `Build`, `Elements` and `Keys`. They give the outcome of
    `buildParams`: the pairs it adds, a thrown TypeError, or non-termination.
  - The methods `BuildParams`, `EachElement`, `EachKey`,
    `Add` and `Param` run the loops and are proved against those functions.
  - The shared array `s`, which the closures capture, is threaded through these
    methods as an in- and an out-parameter.
- `ApiService` holds:
  - the classes `ApiService` (the token field), `Exchange` (the calls made on an
    `XMLHttpRequest`) and `FormData`;
  - the spec functions `RequestTrace`, `Decide` and `CompletionSteps`.

Both object loops in `buildParams` are written `for (keys = Object.keys(obj), i =
keys.length; --i;)`. The model keeps them as written:

- They visit the keys at indices n-1 down to 1, and never the key at index 0.
- With zero keys the test never becomes 0. At the top level the first iteration
  then calls `Object.keys(undefined)` and throws. Below the top level it never ends.

Unlike jQuery.param, from which it is ported, this code runs the top-level loop in
reverse too, and it too skips index 0. `FirstEntryIgnored` and
`FirstKeySkippedExample` state what that means for the encoded text.

## Model

| member | source | states |
|---|---|---|
| `JsValue.OwnEntries` | src/client/app/service/ApiService.ts:138-139 | `Object.keys` paired with the values: entry i of an array is (`String(i)`, element i), entry i of a string is (`String(i)`, its i-th character as a string), an object gives its entries in order, and numbers, booleans and functions give none |
| `JsValue.IntToString` | src/client/app/service/ApiService.ts:91 | `${id}` for an integer id is non-empty and starts with `-` exactly when the id is negative |
| `JsValue.LookupEntries` | src/client/app/service/ApiService.ts:60 | `data.error` is the value of the first own `error` entry of the object, and `undefined` when there is none |
| `JsValue.LookupDistinct` | src/client/app/service/ApiService.ts:60 | for an object whose keys are distinct, as every `JSON.parse` result's are, `data.error` is the value of its one `error` entry |
| `JsValue.Truthy` | src/client/app/service/ApiService.ts:60-76 | the JavaScript truth test: `null`, `undefined`, `""`, `0`, `NaN` and `false` are falsy, everything else truthy; used for `data && data.error` (:60), `data ?` (:66, :76) and `obj &&` (:137) |
| `JsValue.Lookup` | src/client/app/service/ApiService.ts:60 | `data.error` on any value: an object's first `error` entry, `undefined` when it has none and for every value that is not an object |
| `JsValue.IsObjectType` | src/client/app/service/ApiService.ts:134 | `typeof x === 'object'`: true for `null`, arrays and objects only |
| `JsValue.NatToString` | src/client/app/service/ApiService.ts:134-146 | `String(i)` for an index: the decimal digits of `i`, at least one, every one a digit |
| `JsValue.JsString` | src/client/app/service/ApiService.ts:137 | `String(v)`: a string is itself, a number or boolean its text, a function its source, an array its elements joined with `,` (`null`/`undefined` elements empty), an object `[object Object]` |
| `UriEncoding.EncodeURIComponent` | src/client/app/service/ApiService.ts:124 | `encodeURIComponent`: unreserved characters are kept, every other character becomes `%XY` for each octet of its UTF-8 form |
| `UriEncoding.ReplacePercent20` | src/client/app/service/ApiService.ts:116 | `.replace(/%20/g, '+')`: a left-to-right scan that replaces each non-overlapping `%20` with `+` and copies everything else |
| `UriEncoding.Utf8` | src/client/app/service/ApiService.ts:124 | `encodeURIComponent` works on 1 to 4 UTF-8 octets per character, continuation octets in 0x80-0xBF, and only a space gives the octet 0x20 |
| `UriEncoding.EncodeURIComponentShape` | src/client/app/service/ApiService.ts:124 | an encoded key or value contains no `&`, `=`, `+` or space, and every `%` opens a two-hex-digit escape |
| `UriEncoding.UnreservedUnchanged` | src/client/app/service/ApiService.ts:124 | a string of unreserved characters is encoded as itself, with or without the `+` rewrite |
| `UriEncoding.NoPercent20Left` | src/client/app/service/ApiService.ts:116 | the global `%20` → `+` rewrite leaves no `%20` in its output, whatever its input |
| `UriEncoding.ReplaceAfterEncode` | src/client/app/service/ApiService.ts:116 | applied to an encoded string followed by more text, the rewrite turns exactly the encoded spaces into `+` and then continues on the rest |
| `UriEncoding.FormEncode` | src/client/app/service/ApiService.ts:116 | the form encoding of a key or value contains no `&` or `=` |
| `UriEncoding.FormRoundTrip` | src/client/app/service/ApiService.ts:116 | decoding `+` and the `%XY` escapes, then UTF-8, gives back exactly the original key or value |
| `QueryString.Build` | src/client/app/service/ApiService.ts:127-150 | how `buildParams(prefix, v)` ends: the pairs it adds in order, a throw, or non-termination; a non-empty prefix sends arrays to the element loop, `[object Object]` values to the key loop (non-termination for zero keys) and anything else to `add`; the empty prefix throws for zero keys and otherwise runs the key loop |
| `QueryString.Elements` | src/client/app/service/ApiService.ts:129-136 | the array loop after its first k iterations, ascending: each element is added under the prefix itself when the prefix ends in `[]`, and recursed into under `ElementKey` otherwise; the first iteration that does not return decides |
| `QueryString.Keys` | src/client/app/service/ApiService.ts:137-147 | a `--i` loop once it has visited the indices n-1 down to j: each entry recursed into under `ChildKey`, in that order; the first call that does not return decides |
| `QueryString.LeafText` | src/client/app/service/ApiService.ts:123 | the value `add` encodes: a function's return value, `""` for `null` and `undefined`, `String(v)` otherwise |
| `QueryString.EndsWithBrackets` | src/client/app/service/ApiService.ts:114 | `/\[\]$/.test(prefix)`: the prefix ends with `[]` |
| `QueryString.IsObjectTagged` | src/client/app/service/ApiService.ts:137 | `obj && String(obj) === '[object Object]'` |
| `QueryString.ElementKey` | src/client/app/service/ApiService.ts:134 | the prefix for element i: `prefix[i]` when `typeof` the element is `'object'` (`null` included), `prefix[]` otherwise |
| `QueryString.ChildKey` | src/client/app/service/ApiService.ts:139-146 | the prefix for an object key: `prefix[key]` below the top level, the bare key at it |
| `QueryString.EncodeEntry` | src/client/app/service/ApiService.ts:124 | the entry `add` appends: `encodeURIComponent(k)=encodeURIComponent(v)` |
| `QueryString.JoinAmp` | src/client/app/service/ApiService.ts:116 | `.join('&')`: the entries in order with one `&` between neighbours |
| `QueryString.QueryText` | src/client/app/service/ApiService.ts:116 | the text `param` returns for the visited pairs: their entries joined with `&`, then every `%20` written `+` |
| `QueryString.Add` | src/client/app/service/ApiService.ts:122-125 | `add` appends exactly one entry at the end of `s` and leaves the earlier entries unchanged. The entry is the encoded key, `=` and the encoded value, where a function is called and `null`/`undefined` become empty |
| `QueryString.BuildParams` | src/client/app/service/ApiService.ts:127-150 | `buildParams` returns exactly when `Build` does, and then `s` has grown by the encoded pairs `Build` lists, in order. When it throws, `s` has only grown. At the top level it throws for zero keys |
| `QueryString.EachElement` | src/client/app/service/ApiService.ts:130-136 | the array loop visits the elements in ascending order and adds what `Elements` lists |
| `QueryString.EachElementBody` | src/client/app/service/ApiService.ts:131-135 | under a prefix ending in `[]` an element is added as it is; otherwise `buildParams` recurses with `prefix[i]` for an object-typed element and `prefix[]` for anything else |
| `QueryString.EachKey` | src/client/app/service/ApiService.ts:137-147 | both `--i` loops over at least one key add what `Keys` lists. They visit the keys from the last down to index 1, each under `prefix[key]` below the top level and under the bare key at it. They stop at the first recursive call that throws |
| `QueryString.Param` | src/client/app/service/ApiService.ts:112-117 | `param` returns exactly when `buildParams('', data)` does. Its text is the entries joined with `&` and rewritten. The text contains no `%20`, and it reads back as exactly the visited pairs, in order |
| `QueryString.QueryTextForm` | src/client/app/service/ApiService.ts:116 | rewriting `%20` in the joined text is the same as joining the form-encoded entries: no rewrite straddles two entries |
| `QueryString.SplitJoin` | src/client/app/service/ApiService.ts:116 | splitting on `&` undoes the join for a non-empty list whose pieces contain no `&` |
| `QueryString.QueryRoundTrip` | src/client/app/service/ApiService.ts:116-125 | splitting the query on `&` and each piece at its first `=`, then decoding, gives one pair per `add` call, in call order |
| `QueryString.UnreservedPairText` | src/client/app/service/ApiService.ts:116-124 | a pair made of unreserved characters is written `key=value` verbatim |
| `QueryString.ZeroKeys` | src/client/app/service/ApiService.ts:138-146 | with zero keys the top-level call throws, and a nested plain object never terminates |
| `QueryString.FirstEntryIgnored` | src/client/app/service/ApiService.ts:138-146 | two objects that differ only in their first entry encode alike, at the top level and below it |
| `QueryString.ObjectOfLeaves` | src/client/app/service/ApiService.ts:138-146 | an object whose values are neither arrays nor `[object Object]`-tagged (objects, and strings equal to `[object Object]`, are excluded) gives one pair per key, from the last key down to the second, under `prefix[key]`; at the top level, where the key is used bare, this holds when the keys after the first are non-empty; a single-key object gives none |
| `QueryString.EmptyKeyAtTopLevel` | src/client/app/service/ApiService.ts:145-146 | `param({a: 1, "": 5})` throws: the empty key sends `5` back through the top-level branch, which finds no keys |
| `QueryString.EmptyArrayEmitsNothing` | src/client/app/service/ApiService.ts:129-136 | an empty array adds no pair, so `{x: 0, a: []}` and `{x: 0}` give the same (empty) query: the query does not determine the value |
| `QueryString.ArrayOfScalars` | src/client/app/service/ApiService.ts:129-136 | an array of non-null scalars (no arrays, objects or `[object Object]` strings) under a prefix not ending in `[]` gives `prefix[]=x` for each element, in index order |
| `QueryString.ArrayUnderBrackets` | src/client/app/service/ApiService.ts:131-132 | under a prefix ending in `[]` every element, objects included, is added under the prefix itself, in index order |
| `QueryString.BuildExtendsPrefix` | src/client/app/service/ApiService.ts:134-139 | below the top level every key produced begins with the prefix it was called with |
| `QueryString.FirstKeySkippedExample` | src/client/app/service/ApiService.ts:145-146 | `{ids: [1, 2], active: true}` encodes as the single pair `active=true`: the first key is skipped |
| `ApiService.Reversed` | src/client/app/service/ApiService.ts:48-49 | the order of an `i--` loop over the keys: the last element first, down to the first; the same loop shape visits the keys in `toFormData` (:96) |
| `ApiService.SetHeaders` | src/client/app/service/ApiService.ts:50 | one `setRequestHeader(name, value)` per header, in the order given, as many as there are headers |
| `ApiService.CallerHeaders` | src/client/app/service/ApiService.ts:47 | `if (headers)`: the caller's headers, none when they are `null` |
| `ApiService.ReversedIndex` | src/client/app/service/ApiService.ts:48-51 | an `i--` loop visits every element exactly once, the last first |
| `ApiService.RequestTraceOrder` | src/client/app/service/ApiService.ts:45-66 | a request opens `endPoint/edge` first and sends last. In between it sets the token header exactly when the token is truthy, then every caller header once, last key first |
| `ApiService.RotatedTokenSent` | src/client/app/service/ApiService.ts:20-40 | once a response has stored a truthy token, the next request sends exactly that token under the same header name |
| `ApiService.Decide` | src/client/app/service/ApiService.ts:59-63 | the settlement for a parse outcome: a parse failure rejects with an error whose message is `responseText [message]`; a truthy value whose `error` is truthy rejects with that `error`; anything else resolves with the value |
| `ApiService.CompletionSteps` | src/client/app/service/ApiService.ts:53-64 | the steps of the handler: none before DONE; at DONE the token store for status 200 and a truthy header, then the settlement `Decide` gives |
| `ApiService.RequestTrace` | src/client/app/service/ApiService.ts:45-66 | the calls `xhr` makes on the request object: open `endPoint/edge`, the token header, the caller headers last key first, send the body |
| `ApiService.Body` | src/client/app/service/ApiService.ts:66 | `data ? JSON.stringify(data) : null` |
| `ApiService.AuthHeaders` | src/client/app/service/ApiService.ts:30-31 | the token header for a truthy token, nothing otherwise |
| `ApiService.RefreshedToken` | src/client/app/service/ApiService.ts:37-38 | the stored token after a response: a truthy header replaces it, a falsy one keeps it |
| `ApiService.GetEdge` | src/client/app/service/ApiService.ts:76 | the `get` path: `edge` for falsy data, `edge?` and `param(data)` for truthy data, nothing when `param` throws |
| `ApiService.DelEdge` | src/client/app/service/ApiService.ts:91 | the `del` path: `edge/` and the id in decimal |
| `ApiService.DecideCases` | src/client/app/service/ApiService.ts:58-63 | Three outcomes, whatever the status: a parse failure rejects with exactly `responseText [message]`; a truthy value with a truthy `error` rejects with that `error` unwrapped; anything else resolves with the parsed value |
| `ApiService.ErrorFieldRejects` | src/client/app/service/ApiService.ts:60 | a body `{"error": e, ...}` with a truthy `e` rejects with `e` itself |
| `ApiService.NullResolves` | src/client/app/service/ApiService.ts:60 | a body that parses to `null` resolves with `null` |
| `ApiService.CompletionOrder` | src/client/app/service/ApiService.ts:53-64 | the handler does nothing before DONE. At DONE it settles exactly once, as its last step. A token is stored only for status 200 and a truthy header, and only before the settlement |
| `ApiService.ToFormData` | src/client/app/service/ApiService.ts:94-100 | `toFormData` appends every own key with its value exactly once, from the last key to the first |
| `ApiService.GetEdgeQuery` | src/client/app/service/ApiService.ts:75-76 | for truthy data the `get` path is `edge?` followed by a query that reads back as the encoder's pairs |
| `ApiService.DelEdgeId` | src/client/app/service/ApiService.ts:90-91 | the last segment of the `del` path is the id in decimal; a non-negative id reads back from it |
| `ApiService.FormData.Append` | src/client/app/service/ApiService.ts:97 | `fd.append` adds one entry at the end |
| `ApiService.Exchange.Open` | src/client/app/service/ApiService.ts:45 | `xhr.open` is recorded after the earlier calls |
| `ApiService.Exchange.SetRequestHeader` | src/client/app/service/ApiService.ts:31 | `xhr.setRequestHeader` is recorded after the earlier calls |
| `ApiService.Exchange.Send` | src/client/app/service/ApiService.ts:66 | `xhr.send` is recorded after the earlier calls |
| `ApiService.ApiService.constructor` | src/client/app/service/ApiService.ts:22-26 | the service keeps the configured API origin and starts from the credential service's token |
| `ApiService.ApiService.OnBeforeSend` | src/client/app/service/ApiService.ts:28-33 | adds the token header exactly when the stored token is truthy, and nothing else; it never fails |
| `ApiService.ApiService.OnAfterReceive` | src/client/app/service/ApiService.ts:35-40 | a truthy response header replaces the stored token; otherwise the store is unchanged; it never fails |
| `ApiService.ApiService.Xhr` | src/client/app/service/ApiService.ts:42-67 | the calls on the new request object are exactly `RequestTrace`: the URL is `endPoint/edge`, and the body is `JSON.stringify(data)` for truthy data and `null` otherwise |
| `ApiService.ApiService.SetCallerHeaders` | src/client/app/service/ApiService.ts:47-51 | the header loop sets every caller header once, last key first |
| `ApiService.ApiService.OnReadyStateChange` | src/client/app/service/ApiService.ts:53-65 | at DONE the token is refreshed only for status 200, and before settling. The settlement is `Decide` for any status. Before DONE nothing changes |
| `ApiService.ApiService.Get` | src/client/app/service/ApiService.ts:75-78 | `get` throws before any request when `param` throws. Otherwise it opens `GET endPoint/edge` with `?` and the query only for truthy data, with no caller headers and no body |
| `ApiService.ApiService.Post` | src/client/app/service/ApiService.ts:80-83 | `post` sends the JSON body with `Content-Type: application/json` |
| `ApiService.ApiService.Put` | src/client/app/service/ApiService.ts:85-88 | `put` sends the JSON body with `Content-Type: application/json` |
| `ApiService.ApiService.Del` | src/client/app/service/ApiService.ts:90-92 | `del` opens `DELETE endPoint/edge/id` with no caller headers and no body |

## Left out

- The asynchronous side of an exchange is not modelled: `XMLHttpRequest` event
  dispatch, the `Promise`, `promise.xhr` and `abort` (ApiService.ts:43-44, 53,
  68-71). The completion handler is a method that the caller invokes with the
  ready state, the status, the response header and the parse outcome.
- `JSON.parse` is an input: the completion handler receives its outcome, a value or
  a SyntaxError message. `JSON.stringify` is a function parameter.
- `ConfigService.getConfig()` and `enableCache` (ApiService.ts:23-25) are not
  modelled. The API origin is a constructor argument, and `enableCache` is never
  read.
- `AuthService` is reduced to the one token it stores, a field of the service.
  - A `null` token and a missing response header are both the empty string, which
    is falsy in JavaScript, like `null`.
  - `getResponseHeader`'s case-insensitive lookup is not modelled: the handler
    receives the header's value.
- The `getInstance` singleton (ApiService.ts:102-107) is not modelled; it is static
  wiring.
- The conversion `FormData` applies to appended values (strings, `File`, `Blob`)
  is not modelled; only the appended keys, values and order are.
- `encodeURIComponent` throws a URIError on a lone surrogate. This is not
  modelled, because a Dafny `char` is always a Unicode scalar value.
- `isArray` (`Object.prototype.toString.call(obj) === '[object Array]'`) is the
  `Arr` tag of the value.
  - Every `Obj` converts to `[object Object]`. Objects with their own `toString`,
    and inherited properties (including an inherited `error`), are not
    represented.
  - Numbers and booleans are carried as their `String()` text.
- QueryString.QueryRoundTrip: the round trip is stated for the list of visited
  pairs only. Decoding the bracket notation does not rebuild the nested value:
  besides the skipped index-0 keys, empty arrays add nothing
  (`EmptyArrayEmitsNothing`), a string equal to `[object Object]` is walked as its
  characters, and a top-level array becomes index keys.
- QueryString.BuildParams: requires that the walk never reaches an empty plain
  object below the top level. There the source loops forever (`Build` calls that
  case `Diverges`). The entries that the endless loop appends are not described.
- QueryString.Param: has the same precondition as `BuildParams`, for the same
  reason.
- ApiService.ApiService.Get: has the same precondition as `BuildParams`, for truthy
  data, for the same reason.
- ApiService.ApiService.Del: takes an integer id. `${id}` for fractional numbers,
  `NaN` and the infinities is not modelled. Integers are unbounded, so the
  exponent form `${id}` gives from 10^21 on (`"1e+21"`) and the rounding of
  integers beyond 2^53 are not modelled either: `DelEdge` writes every digit.
- JsValue.OwnEntries: a hole in an array is an `Undefined` element and keeps its
  index key, while `Object.keys` leaves holes out. On a sparse array,
  `toFormData` and top-level `param` therefore see more entries here than in
  JavaScript.
- JsValue.OwnEntries: a string's entries are its characters (Unicode scalar
  values), not its UTF-16 code units. For a string with a character outside the
  Basic Multilingual Plane, `Object.keys` gives more indices than the model. The
  surrogate halves that top-level `param` would then pass to
  `encodeURIComponent`, which throws a URIError on them, do not arise.
- JsValue.Value: nothing forces the entries of an `Obj` to have distinct keys.
  Where one key occurs twice, `LookupEntries` takes the first entry, while a
  `JSON.parse` result keeps the last. `LookupDistinct` states the lookup for
  objects with distinct keys, which are all that `Object.keys` and `JSON.parse`
  produce.
- ApiService.ToFormData: requires an argument that is neither `null` nor
  `undefined`, as its `Object` parameter type states. On those, `Object.keys`
  would throw.
