/** The jQuery.param port inside the service: `param`, `buildParams`, `add` and
    `isArray`. `buildParams` walks a nested value carrying a key prefix in bracket
    notation and appends one `key=value` entry to a shared array per leaf; `param`
    joins the entries with `&` and writes encoded spaces as `+`.

    The loops over object keys are reproduced as written: both count `i` down from
    the number of keys with `--i` as the loop test, so they visit the keys at indices
    n-1, ..., 1 and never index 0, and with zero keys the test never becomes 0. */
module QueryString {
  import opened Wrappers
  import opened JsValue
  import opened UriEncoding

  /** A key and a value before encoding: what one `add` call receives once `v` is
      normalised. */
  type Pair = (string, string)

  /** How a call of `buildParams` ends. */
  datatype Outcome =
      /** it returns, having appended one entry per pair, in this order */
    | Done(pairs: seq<Pair>)
      /** `Object.keys` throws a TypeError on `undefined` */
    | Throws
      /** the `--i` loop over an object with zero keys never reaches 0 */
    | Diverges

  /** Running `a` and then `b`: the first that does not return decides. */
  function Then(a: Outcome, b: Outcome): Outcome {
    if !a.Done? then a else if !b.Done? then b else Done(a.pairs + b.pairs)
  }

  /** `rbracket.test(prefix)` with `rbracket = /\[\]$/`. */
  predicate EndsWithBrackets(prefix: string) {
    |prefix| >= 2 && prefix[|prefix| - 2] == '[' && prefix[|prefix| - 1] == ']'
  }

  /** `obj && String(obj) === '[object Object]'`. */
  predicate IsObjectTagged(v: Value) {
    Truthy(v) && JsString(v) == ObjectTag
  }

  /** The value `add` encodes: a function is called, `null` and `undefined` become
      the empty string, anything else is converted with `String()`. */
  function LeafText(v: Value): string {
    match v
    case Thunk(_, result) => result
    case Null => ""
    case Undefined => ""
    case _ => JsString(v)
  }

  /** The prefix `buildParams` recurses with for an object key: the key itself at top
      level, `prefix[key]` below it. */
  function ChildKey(prefix: string, key: string): string {
    if prefix == "" then key else prefix + "[" + key + "]"
  }

  /** The prefix for array element `i`: `prefix[i]` when the element is an object
      (`typeof` says so for `null` too), `prefix[]` otherwise. */
  function ElementKey(prefix: string, v: Value, i: nat): string
    requires v.Arr? && i < |v.items|
  {
    prefix + "[" + (if IsObjectType(v.items[i]) then NatToString(i) else "") + "]"
  }

  /** What `buildParams(prefix, v)` does. The branch depends on whether `prefix` is
      the empty string, not on the depth of the recursion. */
  function Build(prefix: string, v: Value): Outcome
    decreases Size(v), 1, 0
  {
    if prefix != "" then
      if v.Arr? then Elements(prefix, v, |v.items|)
      else if IsObjectTagged(v) then
        if |OwnEntries(v)| == 0 then Diverges else Keys(prefix, v, 1)
      else Done([(prefix, LeafText(v))])
    else if |OwnEntries(v)| == 0 then
      // i = -1: buildParams(undefined, v[undefined]) calls Object.keys(undefined)
      Throws
    else Keys(prefix, v, 1)
  }

  /** The array loop after its first `k` iterations (indices 0 .. k-1, ascending). */
  function Elements(prefix: string, v: Value, k: nat): Outcome
    requires prefix != "" && v.Arr? && k <= |v.items|
    decreases Size(v), 0, k
  {
    if k == 0 then Done([])
    else
      var i := k - 1;
      ItemSmaller(v, i);
      var step :=
        if EndsWithBrackets(prefix) then Done([(prefix, LeafText(v.items[i]))])
        else Build(ElementKey(prefix, v, i), v.items[i]);
      Then(Elements(prefix, v, i), step)
  }

  /** A `--i` loop over `Object.keys(v)` once it has visited the indices
      n-1 down to `j` (none when `j` is n). */
  function Keys(prefix: string, v: Value, j: nat): Outcome
    requires 1 <= j <= |OwnEntries(v)|
    decreases Size(v), 0, |OwnEntries(v)| - j
  {
    var es := OwnEntries(v);
    if j == |es| then Done([])
    else
      EntrySmaller(v, j);
      Then(Keys(prefix, v, j + 1), Build(ChildKey(prefix, es[j].0), es[j].1))
  }

  /** The entry `add(k, v)` appends: `encodeURIComponent(k)=encodeURIComponent(v)`. */
  function EncodeEntry(p: Pair): string {
    EncodeURIComponent(p.0) + "=" + EncodeURIComponent(p.1)
  }

  function EncodeEntries(ps: seq<Pair>): seq<string>
  {
    if ps == [] then [] else [EncodeEntry(ps[0])] + EncodeEntries(ps[1..])
  }

  lemma {:induction false} EncodeEntriesAppend(a: seq<Pair>, b: seq<Pair>)
    ensures EncodeEntries(a + b) == EncodeEntries(a) + EncodeEntries(b)
  {
    if a == [] {
      assert a + b == b;
    } else {
      assert (a + b)[1..] == a[1..] + b;
      EncodeEntriesAppend(a[1..], b);
    }
  }

  /** One more iteration of the array loop. */
  lemma ElementsStep(prefix: string, v: Value, i: nat)
    requires prefix != "" && v.Arr? && i < |v.items|
    ensures Elements(prefix, v, i + 1) ==
      Then(Elements(prefix, v, i),
           if EndsWithBrackets(prefix) then Done([(prefix, LeafText(v.items[i]))])
           else Build(ElementKey(prefix, v, i), v.items[i]))
  {
  }

  /** One more iteration of a key loop. */
  lemma KeysStep(prefix: string, v: Value, j: nat)
    requires 1 <= j < |OwnEntries(v)|
    ensures Keys(prefix, v, j) ==
      Then(Keys(prefix, v, j + 1), Build(ChildKey(prefix, OwnEntries(v)[j].0), OwnEntries(v)[j].1))
  {
  }

  /** Once a loop stops returning normally, later iterations do not change how it ends. */
  lemma {:induction false} ElementsStuck(prefix: string, v: Value, k: nat, k': nat)
    requires prefix != "" && v.Arr? && k <= k' <= |v.items|
    requires !Elements(prefix, v, k).Done?
    ensures Elements(prefix, v, k') == Elements(prefix, v, k)
    decreases k'
  {
    if k < k' {
      ElementsStuck(prefix, v, k, k' - 1);
      ElementsStep(prefix, v, k' - 1);
    }
  }

  lemma {:induction false} KeysStuck(prefix: string, v: Value, j: nat, j': nat)
    requires 1 <= j' <= j <= |OwnEntries(v)|
    requires !Keys(prefix, v, j).Done?
    ensures Keys(prefix, v, j') == Keys(prefix, v, j)
    decreases j - j'
  {
    if j' < j {
      KeysStuck(prefix, v, j, j' + 1);
      KeysStep(prefix, v, j');
    }
  }

  /** A key loop that does not diverge makes no recursive call that diverges. */
  lemma KeysCallHalts(prefix: string, v: Value, i: nat, acc: seq<Pair>)
    requires 1 <= i < |OwnEntries(v)|
    requires Keys(prefix, v, i + 1) == Done(acc)
    requires !Keys(prefix, v, 1).Diverges?
    ensures !Build(ChildKey(prefix, OwnEntries(v)[i].0), OwnEntries(v)[i].1).Diverges?
  {
    KeysStep(prefix, v, i);
    if Build(ChildKey(prefix, OwnEntries(v)[i].0), OwnEntries(v)[i].1).Diverges? {
      KeysStuck(prefix, v, i, 1);
    }
  }

  /** A recursive call that returns extends the loop's pairs by its own. */
  lemma KeysCallDone(prefix: string, v: Value, i: nat, acc: seq<Pair>)
    requires 1 <= i < |OwnEntries(v)|
    requires Keys(prefix, v, i + 1) == Done(acc)
    requires Build(ChildKey(prefix, OwnEntries(v)[i].0), OwnEntries(v)[i].1).Done?
    ensures Keys(prefix, v, i) ==
      Done(acc + Build(ChildKey(prefix, OwnEntries(v)[i].0), OwnEntries(v)[i].1).pairs)
  {
    KeysStep(prefix, v, i);
  }

  /** A recursive call that throws makes the whole loop throw. */
  lemma KeysCallThrows(prefix: string, v: Value, i: nat, acc: seq<Pair>)
    requires 1 <= i < |OwnEntries(v)|
    requires Keys(prefix, v, i + 1) == Done(acc)
    requires Build(ChildKey(prefix, OwnEntries(v)[i].0), OwnEntries(v)[i].1).Throws?
    ensures Keys(prefix, v, 1) == Throws
  {
    KeysStep(prefix, v, i);
    KeysStuck(prefix, v, i, 1);
  }

  lemma ElementCallHalts(prefix: string, v: Value, i: nat, acc: seq<Pair>)
    requires prefix != "" && !EndsWithBrackets(prefix) && v.Arr? && i < |v.items|
    requires Elements(prefix, v, i) == Done(acc)
    requires !Elements(prefix, v, |v.items|).Diverges?
    ensures !Build(ElementKey(prefix, v, i), v.items[i]).Diverges?
  {
    ElementsStep(prefix, v, i);
    if Build(ElementKey(prefix, v, i), v.items[i]).Diverges? {
      ElementsStuck(prefix, v, i + 1, |v.items|);
    }
  }

  lemma ElementCallDone(prefix: string, v: Value, i: nat, acc: seq<Pair>)
    requires prefix != "" && !EndsWithBrackets(prefix) && v.Arr? && i < |v.items|
    requires Elements(prefix, v, i) == Done(acc)
    requires Build(ElementKey(prefix, v, i), v.items[i]).Done?
    ensures Elements(prefix, v, i + 1) == Done(acc + Build(ElementKey(prefix, v, i), v.items[i]).pairs)
  {
    ElementsStep(prefix, v, i);
  }

  lemma ElementCallThrows(prefix: string, v: Value, i: nat, acc: seq<Pair>)
    requires prefix != "" && !EndsWithBrackets(prefix) && v.Arr? && i < |v.items|
    requires Elements(prefix, v, i) == Done(acc)
    requires Build(ElementKey(prefix, v, i), v.items[i]).Throws?
    ensures Elements(prefix, v, |v.items|) == Throws
  {
    ElementsStep(prefix, v, i);
    ElementsStuck(prefix, v, i + 1, |v.items|);
  }

  /** Under a prefix ending in `[]` the array loop adds each element directly. */
  lemma ElementAdded(prefix: string, v: Value, i: nat, acc: seq<Pair>)
    requires prefix != "" && EndsWithBrackets(prefix) && v.Arr? && i < |v.items|
    requires Elements(prefix, v, i) == Done(acc)
    ensures Elements(prefix, v, i + 1) == Done(acc + [(prefix, LeafText(v.items[i]))])
  {
    ElementsStep(prefix, v, i);
  }

  /** What an iteration that returns does to `s`, stated once for all three loops. */
  lemma EntriesExtended(s0: seq<string>, before: seq<string>, after: seq<string>,
                        acc: seq<Pair>, added: seq<Pair>)
    requires before == s0 + EncodeEntries(acc)
    requires after == before + EncodeEntries(added)
    ensures after == s0 + EncodeEntries(acc + added)
  {
    EncodeEntriesAppend(acc, added);
    assert (s0 + EncodeEntries(acc)) + EncodeEntries(added) == s0 + (EncodeEntries(acc) + EncodeEntries(added));
  }

  /** What an iteration that throws leaves of `s`: what was there before the loop. */
  lemma EntriesKept(s0: seq<string>, before: seq<string>, after: seq<string>, acc: seq<Pair>)
    requires before == s0 + EncodeEntries(acc)
    requires before <= after
    ensures s0 <= after
  {
  }

  /* The array `s` that `param` creates and `add` appends to is a local of `param`
     captured by `add` and `buildParams`; it is threaded through the methods below
     as an in-parameter `s` and an out-parameter `s'`. */

  /** `add(k, v)`: appends exactly one entry at the end of `s`. */
  method Add(s: seq<string>, k: string, v: Value) returns (s': seq<string>)
    ensures s' == s + [EncodeEntry((k, LeafText(v)))]
  {
    var text := LeafText(v);
    s' := s + [EncodeURIComponent(k) + "=" + EncodeURIComponent(text)];
  }

  /** `buildParams(prefix, obj)`. When it returns, `s` has grown by the encoded
      entries `Build` lists; when it throws, `s` has only grown. */
  method BuildParams(prefix: string, obj: Value, s: seq<string>) returns (ok: bool, s': seq<string>)
    requires !Build(prefix, obj).Diverges?
    ensures ok <==> Build(prefix, obj).Done?
    ensures ok ==> s' == s + EncodeEntries(Build(prefix, obj).pairs)
    ensures s <= s'
    decreases Size(obj), 1, 0
  {
    if prefix != "" {
      if obj.Arr? {
        ok, s' := EachElement(prefix, obj, s);
      } else if IsObjectTagged(obj) {
        ok, s' := EachKey(prefix, obj, s);
      } else {
        s' := Add(s, prefix, obj);
        ok := true;
      }
    } else if |OwnEntries(obj)| == 0 {
      // the first `--i` gives -1: `buildParams(undefined, obj[undefined])` calls
      // `Object.keys(undefined)`, which throws before anything is added
      ok, s' := false, s;
    } else {
      ok, s' := EachKey("", obj, s);
    }
  }

  /** The loop over an array's elements, in ascending index order. */
  method EachElement(prefix: string, obj: Value, s: seq<string>) returns (ok: bool, s': seq<string>)
    requires prefix != "" && obj.Arr?
    requires !Elements(prefix, obj, |obj.items|).Diverges?
    ensures ok <==> Elements(prefix, obj, |obj.items|).Done?
    ensures ok ==> s' == s + EncodeEntries(Elements(prefix, obj, |obj.items|).pairs)
    ensures s <= s'
    decreases Size(obj), 0, 1
  {
    ghost var acc: seq<Pair> := [];
    s' := s;
    var i := 0;
    while i < |obj.items|
      invariant 0 <= i <= |obj.items|
      invariant Elements(prefix, obj, i) == Done(acc)
      invariant s' == s + EncodeEntries(acc)
    {
      var before := s';
      ghost var added;
      ok, s', added := EachElementBody(prefix, obj, i, acc, s');
      if !ok {
        EntriesKept(s, before, s', acc);
        return;
      }
      EntriesExtended(s, before, s', acc, added);
      acc := acc + added;
      i := i + 1;
    }
    assert Elements(prefix, obj, |obj.items|).pairs == acc;
    ok := true;
  }

  /** One iteration of the array loop: element `i` is added under `prefix` itself
      when it ends in `[]`, and recursed into otherwise. */
  method EachElementBody(prefix: string, obj: Value, i: nat, ghost acc: seq<Pair>, s: seq<string>)
      returns (ok: bool, s': seq<string>, ghost added: seq<Pair>)
    requires prefix != "" && obj.Arr? && i < |obj.items|
    requires Elements(prefix, obj, i) == Done(acc)
    requires !Elements(prefix, obj, |obj.items|).Diverges?
    ensures ok ==> Elements(prefix, obj, i + 1) == Done(acc + added)
    ensures ok ==> s' == s + EncodeEntries(added)
    ensures !ok ==> Elements(prefix, obj, |obj.items|) == Throws
    ensures s <= s'
    decreases Size(obj), 0, 0
  {
    if EndsWithBrackets(prefix) {
      ElementAdded(prefix, obj, i, acc);
      s' := Add(s, prefix, obj.items[i]);
      added := [(prefix, LeafText(obj.items[i]))];
      ok := true;
    } else {
      ItemSmaller(obj, i);
      var key := ElementKey(prefix, obj, i);
      ElementCallHalts(prefix, obj, i, acc);
      ok, s' := BuildParams(key, obj.items[i], s);
      if !ok {
        ElementCallThrows(prefix, obj, i, acc);
        return false, s', [];
      }
      ElementCallDone(prefix, obj, i, acc);
      added := Build(key, obj.items[i]).pairs;
    }
  }

  /** The two loops over object keys, both written
      `for (keys = Object.keys(obj), i = keys.length; --i;)`: below the top level
      each key recurses with `${prefix}[${keys[i]}]`, at the top level with
      `keys[i]` itself; `ChildKey` gives both. */
  method EachKey(prefix: string, obj: Value, s: seq<string>) returns (ok: bool, s': seq<string>)
    requires 1 <= |OwnEntries(obj)|
    requires !Keys(prefix, obj, 1).Diverges?
    ensures ok <==> Keys(prefix, obj, 1).Done?
    ensures ok ==> s' == s + EncodeEntries(Keys(prefix, obj, 1).pairs)
    ensures s <= s'
    decreases Size(obj), 0, 0
  {
    ghost var acc: seq<Pair> := [];
    s' := s;
    var keys := OwnEntries(obj);
    var i := |keys| - 1;  // the first `--i`
    while i != 0
      invariant 0 <= i < |keys|
      invariant Keys(prefix, obj, i + 1) == Done(acc)
      invariant s' == s + EncodeEntries(acc)
    {
      EntrySmaller(obj, i);
      var key := ChildKey(prefix, keys[i].0);
      KeysCallHalts(prefix, obj, i, acc);
      var before := s';
      var childOk;
      childOk, s' := BuildParams(key, keys[i].1, s');
      if !childOk {
        KeysCallThrows(prefix, obj, i, acc);
        EntriesKept(s, before, s', acc);
        return false, s';
      }
      KeysCallDone(prefix, obj, i, acc);
      EntriesExtended(s, before, s', acc, Build(key, keys[i].1).pairs);
      acc := acc + Build(key, keys[i].1).pairs;
      i := i - 1;
    }
    assert Keys(prefix, obj, 1).pairs == acc;
    ok := true;
  }

  /** `param(data)`: the entries `buildParams('', data)` leaves in `s`, joined with
      `&`, with every `%20` written as `+`; `None` when `buildParams` throws. The text
      splits back into exactly the pairs `buildParams` visited, in visiting order. */
  method Param(data: Value) returns (r: Option<string>)
    requires !Build("", data).Diverges?
    ensures r.Some? <==> Build("", data).Done?
    ensures r.Some? ==> r.value == QueryText(Build("", data).pairs)
    ensures r.Some? ==> DecodeQuery(r.value) == Some(Build("", data).pairs)
    ensures r.Some? ==> forall i :: !Percent20At(r.value, i)
  {
    var ok, s := BuildParams("", data, []);
    if !ok {
      return None;
    }
    assert s == EncodeEntries(Build("", data).pairs);
    r := Some(ReplacePercent20(JoinAmp(s)));
    QueryRoundTrip(Build("", data).pairs);
    NoPercent20Left(JoinAmp(s));
  }

  /** `Array.prototype.join('&')`. */
  function JoinAmp(es: seq<string>): string {
    if es == [] then "" else if |es| == 1 then es[0] else es[0] + "&" + JoinAmp(es[1..])
  }

  /** `String.prototype.split('&')`: the pieces between the ampersands, one more
      than there are ampersands. */
  function SplitAmp(s: string): (r: seq<string>)
    ensures |r| >= 1
  {
    if s == [] then [""]
    else
      var rest := SplitAmp(s[1..]);
      if s[0] == '&' then [""] + rest else [[s[0]] + rest[0]] + rest[1..]
  }

  predicate NoAmp(e: string) {
    forall i :: 0 <= i < |e| ==> e[i] != '&'
  }

  /** The text `param` returns for the pairs `buildParams` produced. */
  function QueryText(pairs: seq<Pair>): string {
    ReplacePercent20(JoinAmp(EncodeEntries(pairs)))
  }

  /** One pair in `application/x-www-form-urlencoded` form. */
  function FormEntry(p: Pair): string {
    FormEncode(p.0) + "=" + FormEncode(p.1)
  }

  function FormEntries(ps: seq<Pair>): (r: seq<string>)
    ensures |r| == |ps|
  {
    if ps == [] then [] else [FormEntry(ps[0])] + FormEntries(ps[1..])
  }

  /** The index of the first `=` in `s`, or `|s|` when there is none. */
  function FirstEq(s: string): (i: nat)
    ensures i <= |s|
    ensures i < |s| ==> s[i] == '='
    ensures forall j :: 0 <= j < i ==> s[j] != '='
  {
    if s == [] then 0 else if s[0] == '=' then 0 else 1 + FirstEq(s[1..])
  }

  /** Reads one `key=value` piece back: the key ends at the first `=`. */
  function DecodePair(piece: string): Option<Pair> {
    var i := FirstEq(piece);
    if i == |piece| then None
    else
      var k := FormDecode(piece[..i]);
      var v := FormDecode(piece[i + 1..]);
      if k.None? || v.None? then None else Some((k.value, v.value))
  }

  function DecodePairs(pieces: seq<string>): Option<seq<Pair>> {
    if pieces == [] then Some([])
    else
      var p := DecodePair(pieces[0]);
      var rest := DecodePairs(pieces[1..]);
      if p.None? || rest.None? then None else Some([p.value] + rest.value)
  }

  /** Reads a query string back into its pairs: the empty string has none,
      otherwise there is one pair per `&`-separated piece. */
  function DecodeQuery(q: string): Option<seq<Pair>> {
    if q == "" then Some([]) else DecodePairs(SplitAmp(q))
  }

  /** Rewriting `%20` to `+` turns an encoded entry into its form-encoded version
      and goes on after it. */
  lemma ReplaceEntry(p: Pair, rest: string)
    ensures ReplacePercent20(EncodeEntry(p) + rest) == FormEntry(p) + ReplacePercent20(rest)
  {
    var ek, ev := EncodeURIComponent(p.0), EncodeURIComponent(p.1);
    ReplaceAfterEncode(p.0, "=" + (ev + rest));
    ReplacePassesHead('=', ev + rest);
    ReplaceJoin(ek, "=", ev + rest, FormEncode(p.0), "=");
    ReplaceAfterEncode(p.1, rest);
    ReplaceJoin(ek + "=", ev, rest, FormEncode(p.0) + "=", FormEncode(p.1));
  }

  /** The rewrite applied to the whole joined text equals the form-encoded entries
      joined: no `%20` straddles two entries. */
  lemma {:induction false} QueryTextForm(pairs: seq<Pair>)
    ensures QueryText(pairs) == JoinAmp(FormEntries(pairs))
  {
    if |pairs| == 1 {
      ReplaceEntry(pairs[0], "");
      assert EncodeEntry(pairs[0]) + "" == EncodeEntry(pairs[0]);
      assert FormEntry(pairs[0]) + "" == FormEntry(pairs[0]);
    } else if |pairs| > 1 {
      var e, f := EncodeEntry(pairs[0]), FormEntry(pairs[0]);
      var tail := JoinAmp(EncodeEntries(pairs[1..]));
      assert EncodeEntries(pairs)[1..] == EncodeEntries(pairs[1..]);
      assert FormEntries(pairs)[1..] == FormEntries(pairs[1..]);
      QueryTextForm(pairs[1..]);
      ReplaceEntry(pairs[0], "&" + tail);
      ReplacePassesHead('&', tail);
      ReplaceJoin(e, "&", tail, f, "&");
    }
  }

  /** A key and a value without delimiters, joined by `=`: no `&`, and the first
      `=` is the one between them. */
  lemma JoinedByEq(a: string, b: string)
    requires NoDelimiters(a) && NoDelimiters(b)
    ensures NoAmp(a + "=" + b)
    ensures FirstEq(a + "=" + b) == |a|
  {
    var s := a + "=" + b;
    assert s[|a|] == '=';
    assert forall j :: 0 <= j < |a| ==> s[j] == a[j];
    assert forall j :: |a| < j < |s| ==> s[j] == b[j - |a| - 1];
  }

  /** A form-encoded entry holds no `&`, and its first `=` follows the encoded key. */
  lemma FormEntryShape(p: Pair)
    ensures NoAmp(FormEntry(p))
    ensures FirstEq(FormEntry(p)) == |FormEncode(p.0)|
  {
    JoinedByEq(FormEncode(p.0), FormEncode(p.1));
  }

  /** A form-encoded entry reads back as the pair it encodes. */
  lemma DecodeFormEntry(p: Pair)
    ensures DecodePair(FormEntry(p)) == Some(p)
  {
    FormEntryShape(p);
    var a, b := FormEncode(p.0), FormEncode(p.1);
    assert FormEntry(p)[..|a|] == a;
    assert FormEntry(p)[|a| + 1..] == b;
    FormRoundTrip(p.0);
    FormRoundTrip(p.1);
  }

  lemma {:induction false} DecodeFormEntries(ps: seq<Pair>)
    ensures DecodePairs(FormEntries(ps)) == Some(ps)
  {
    if ps != [] {
      assert FormEntries(ps)[1..] == FormEntries(ps[1..]);
      DecodeFormEntry(ps[0]);
      DecodeFormEntries(ps[1..]);
      assert [ps[0]] + ps[1..] == ps;
    }
  }

  /** A piece without `&` splits into itself. */
  lemma {:induction false} SplitNoAmp(e: string)
    requires NoAmp(e)
    ensures SplitAmp(e) == [e]
    decreases |e|
  {
    if e != [] {
      SplitNoAmp(e[1..]);
      assert [e[0]] + e[1..] == e;
    }
  }

  /** Splitting finds the first `&` after a piece without one. */
  lemma {:induction false} SplitAfter(e: string, t: string)
    requires NoAmp(e)
    ensures SplitAmp(e + "&" + t) == [e] + SplitAmp(t)
    decreases |e|
  {
    if e == [] {
      assert e + "&" + t == ['&'] + t;
      assert (['&'] + t)[1..] == t;
    } else {
      SplitAfter(e[1..], t);
      assert (e + "&" + t)[1..] == e[1..] + "&" + t;
      assert [e[0]] + e[1..] == e;
    }
  }

  /** Splitting on `&` undoes joining with `&` pieces that hold none. */
  lemma {:induction false} SplitJoin(es: seq<string>)
    requires es != []
    requires forall i :: 0 <= i < |es| ==> NoAmp(es[i])
    ensures SplitAmp(JoinAmp(es)) == es
  {
    if |es| == 1 {
      SplitNoAmp(es[0]);
    } else {
      SplitJoin(es[1..]);
      SplitAfter(es[0], JoinAmp(es[1..]));
      assert [es[0]] + es[1..] == es;
    }
  }

  lemma {:induction false} FormEntriesNoAmp(ps: seq<Pair>)
    ensures forall i :: 0 <= i < |ps| ==> NoAmp(FormEntries(ps)[i])
  {
    if ps != [] {
      FormEntryShape(ps[0]);
      FormEntriesNoAmp(ps[1..]);
      assert forall i :: 1 <= i < |ps| ==> FormEntries(ps)[i] == FormEntries(ps[1..])[i - 1];
    }
  }

  /** The query text reads back as exactly the pairs that produced it, in order:
      one `&`-separated piece per `add` call. */
  lemma QueryRoundTrip(pairs: seq<Pair>)
    ensures DecodeQuery(QueryText(pairs)) == Some(pairs)
  {
    QueryTextForm(pairs);
    if pairs != [] {
      var es := FormEntries(pairs);
      FormEntriesNoAmp(pairs);
      SplitJoin(es);
      FormEntryShape(pairs[0]);
      if JoinAmp(es) == "" {
        assert false;
      }
      DecodeFormEntries(pairs);
    }
  }

  /** A value that `buildParams` hands to `add` under a non-empty prefix. */
  predicate IsLeaf(x: Value) {
    !x.Arr? && !IsObjectTagged(x)
  }

  /** With zero keys the top-level loop throws and a nested one never ends. */
  lemma ZeroKeys(prefix: string, v: Value)
    requires |OwnEntries(v)| == 0
    ensures prefix == "" ==> Build(prefix, v) == Throws
    ensures prefix != "" && v.Obj? ==> Build(prefix, v) == Diverges
  {
  }

  lemma {:induction false} KeysIgnoreFirst(prefix: string, v: Value, w: Value, j: nat)
    requires 1 <= j <= |OwnEntries(v)| == |OwnEntries(w)|
    requires OwnEntries(v)[1..] == OwnEntries(w)[1..]
    ensures Keys(prefix, v, j) == Keys(prefix, w, j)
    decreases |OwnEntries(v)| - j
  {
    if j < |OwnEntries(v)| {
      KeysIgnoreFirst(prefix, v, w, j + 1);
      KeysStep(prefix, v, j);
      KeysStep(prefix, w, j);
      assert OwnEntries(v)[j] == OwnEntries(v)[1..][j - 1] == OwnEntries(w)[j];
    }
  }

  /** The key at index 0 is never visited: objects that differ only in their first
      entry encode alike, at the top level and below it. */
  lemma FirstEntryIgnored(prefix: string, e: (string, Value), e': (string, Value),
                          rest: seq<(string, Value)>)
    ensures Build(prefix, Obj([e] + rest)) == Build(prefix, Obj([e'] + rest))
  {
    var v, w := Obj([e] + rest), Obj([e'] + rest);
    assert OwnEntries(v)[1..] == rest == OwnEntries(w)[1..];
    KeysIgnoreFirst(prefix, v, w, 1);
  }

  lemma {:induction false} LeafKeysReversed(prefix: string, v: Value, j: nat)
    requires 1 <= j <= |OwnEntries(v)|
    requires forall i :: 1 <= i < |OwnEntries(v)| ==>
      (prefix == "" ==> OwnEntries(v)[i].0 != "") && IsLeaf(OwnEntries(v)[i].1)
    ensures Keys(prefix, v, j).Done?
    ensures |Keys(prefix, v, j).pairs| == |OwnEntries(v)| - j
    ensures forall m :: 0 <= m < |OwnEntries(v)| - j ==>
      Keys(prefix, v, j).pairs[m] == (ChildKey(prefix, OwnEntries(v)[|OwnEntries(v)| - 1 - m].0),
                                      LeafText(OwnEntries(v)[|OwnEntries(v)| - 1 - m].1))
    decreases |OwnEntries(v)| - j
  {
    var es := OwnEntries(v);
    if j < |es| {
      LeafKeysReversed(prefix, v, j + 1);
      KeysStep(prefix, v, j);
      assert Build(ChildKey(prefix, es[j].0), es[j].1) == Done([(ChildKey(prefix, es[j].0), LeafText(es[j].1))]);
    }
  }

  /** An object whose values are leaves gives one pair per key, from the last key
      down to the second, each under its own key (`prefix[key]` below the top level).
      At the top level an empty key would send its value back through the top-level
      branch, so there the keys after the first must be non-empty. */
  lemma ObjectOfLeaves(prefix: string, v: Value)
    requires v.Obj? && 1 <= |v.entries|
    requires forall i :: 1 <= i < |v.entries| ==> (prefix == "" ==> v.entries[i].0 != "") && IsLeaf(v.entries[i].1)
    ensures Build(prefix, v).Done?
    ensures |Build(prefix, v).pairs| == |v.entries| - 1
    ensures forall m :: 0 <= m < |v.entries| - 1 ==>
      Build(prefix, v).pairs[m] == (ChildKey(prefix, v.entries[|v.entries| - 1 - m].0),
                                    LeafText(v.entries[|v.entries| - 1 - m].1))
  {
    LeafKeysReversed(prefix, v, 1);
  }

  /** Why `ObjectOfLeaves` needs non-empty keys at the top level: an empty key calls
      `buildParams('', 5)`, whose top-level branch finds no keys and throws. */
  lemma EmptyKeyAtTopLevel()
    ensures Build("", Obj([("a", Prim("1")), ("", Prim("5"))])) == Throws
  {
  }

  /** An empty array adds nothing, so the query cannot tell it from a missing key:
      `{x: 0, a: []}` and `{x: 0}` both give no pairs (the key `x` is skipped). */
  lemma EmptyArrayEmitsNothing()
    ensures Build("", Obj([("x", Prim("0")), ("a", Arr([]))])) == Done([])
    ensures Build("", Obj([("x", Prim("0"))])) == Done([])
    ensures Build("a", Arr([])) == Done([])
  {
  }

  lemma {:induction false} ScalarElements(prefix: string, v: Value, k: nat)
    requires prefix != "" && !EndsWithBrackets(prefix) && v.Arr? && k <= |v.items|
    requires forall i :: 0 <= i < |v.items| ==> !IsObjectType(v.items[i]) && IsLeaf(v.items[i])
    ensures Elements(prefix, v, k).Done?
    ensures |Elements(prefix, v, k).pairs| == k
    ensures forall i :: 0 <= i < k ==> Elements(prefix, v, k).pairs[i] == (prefix + "[]", LeafText(v.items[i]))
  {
    if k > 0 {
      ScalarElements(prefix, v, k - 1);
      ElementsStep(prefix, v, k - 1);
      assert ElementKey(prefix, v, k - 1) == prefix + "[]";
    }
  }

  /** An array of scalars under a prefix not ending in `[]` gives `prefix[]=x` for
      each element, in index order. */
  lemma ArrayOfScalars(prefix: string, v: Value)
    requires prefix != "" && !EndsWithBrackets(prefix) && v.Arr?
    requires forall i :: 0 <= i < |v.items| ==> !IsObjectType(v.items[i]) && IsLeaf(v.items[i])
    ensures Build(prefix, v).Done?
    ensures |Build(prefix, v).pairs| == |v.items|
    ensures forall i :: 0 <= i < |v.items| ==> Build(prefix, v).pairs[i] == (prefix + "[]", LeafText(v.items[i]))
  {
    ScalarElements(prefix, v, |v.items|);
  }

  lemma {:induction false} BracketElements(prefix: string, v: Value, k: nat)
    requires EndsWithBrackets(prefix) && v.Arr? && k <= |v.items|
    ensures Elements(prefix, v, k).Done?
    ensures |Elements(prefix, v, k).pairs| == k
    ensures forall i :: 0 <= i < k ==> Elements(prefix, v, k).pairs[i] == (prefix, LeafText(v.items[i]))
  {
    if k > 0 {
      BracketElements(prefix, v, k - 1);
      ElementsStep(prefix, v, k - 1);
    }
  }

  /** Under a prefix ending in `[]` every element, objects included, is added under
      the prefix itself, in index order, without recursing. */
  lemma ArrayUnderBrackets(prefix: string, v: Value)
    requires EndsWithBrackets(prefix) && v.Arr?
    ensures Build(prefix, v).Done?
    ensures |Build(prefix, v).pairs| == |v.items|
    ensures forall i :: 0 <= i < |v.items| ==> Build(prefix, v).pairs[i] == (prefix, LeafText(v.items[i]))
  {
    BracketElements(prefix, v, |v.items|);
  }

  /** Every pair's key begins with `prefix`. */
  predicate AllExtend(prefix: string, ps: seq<Pair>) {
    forall m :: 0 <= m < |ps| ==> prefix <= ps[m].0
  }

  lemma AllExtendConcat(prefix: string, a: seq<Pair>, b: seq<Pair>)
    requires AllExtend(prefix, a) && AllExtend(prefix, b)
    ensures AllExtend(prefix, a + b)
  {
    assert forall m :: |a| <= m < |a + b| ==> (a + b)[m] == b[m - |a|];
  }

  lemma AllExtendWeaken(prefix: string, longer: string, ps: seq<Pair>)
    requires prefix <= longer && AllExtend(longer, ps)
    ensures AllExtend(prefix, ps)
  {
    forall m | 0 <= m < |ps|
      ensures prefix <= ps[m].0
    {
      assert ps[m].0[..|longer|] == longer;
      assert ps[m].0[..|prefix|] == longer[..|prefix|];
    }
  }

  /** Below the top level every key `buildParams` produces extends its prefix:
      `prefix`, `prefix[]`, `prefix[i]` or `prefix[key]` followed by more brackets. */
  lemma {:induction false} BuildExtendsPrefix(prefix: string, v: Value)
    requires prefix != "" && Build(prefix, v).Done?
    ensures AllExtend(prefix, Build(prefix, v).pairs)
    decreases Size(v), 1, 0
  {
    if v.Arr? {
      ElementsExtendPrefix(prefix, v, |v.items|);
    } else if IsObjectTagged(v) {
      KeysExtendPrefix(prefix, v, 1);
    }
  }

  /** A loop step that returns had both halves return. */
  lemma ThenDone(a: Outcome, b: Outcome)
    requires Then(a, b).Done?
    ensures a.Done? && b.Done? && Then(a, b).pairs == a.pairs + b.pairs
  {
  }

  lemma BracketKeyExtends(prefix: string, mid: string)
    ensures prefix <= prefix + "[" + mid + "]"
  {
    assert (prefix + "[" + mid + "]")[..|prefix|] == prefix;
  }

  lemma {:induction false} ElementsExtendPrefix(prefix: string, v: Value, k: nat)
    requires prefix != "" && v.Arr? && k <= |v.items| && Elements(prefix, v, k).Done?
    ensures AllExtend(prefix, Elements(prefix, v, k).pairs)
    decreases Size(v), 0, k
  {
    if k > 0 {
      var i := k - 1;
      var x := v.items[i];
      var prev := Elements(prefix, v, i);
      ElementsStep(prefix, v, i);
      if !EndsWithBrackets(prefix) {
        var key := ElementKey(prefix, v, i);
        ThenDone(prev, Build(key, x));
        ElementsExtendPrefix(prefix, v, i);
        ItemSmaller(v, i);
        BuildExtendsPrefix(key, x);
        BracketKeyExtends(prefix, if IsObjectType(x) then NatToString(i) else "");
        AllExtendWeaken(prefix, key, Build(key, x).pairs);
        AllExtendConcat(prefix, prev.pairs, Build(key, x).pairs);
      } else {
        ThenDone(prev, Done([(prefix, LeafText(x))]));
        ElementsExtendPrefix(prefix, v, i);
        AllExtendConcat(prefix, prev.pairs, [(prefix, LeafText(x))]);
      }
    }
  }

  lemma {:induction false} KeysExtendPrefix(prefix: string, v: Value, j: nat)
    requires prefix != "" && 1 <= j <= |OwnEntries(v)| && Keys(prefix, v, j).Done?
    ensures AllExtend(prefix, Keys(prefix, v, j).pairs)
    decreases Size(v), 0, |OwnEntries(v)| - j
  {
    var es := OwnEntries(v);
    if j < |es| {
      var key := ChildKey(prefix, es[j].0);
      var prev := Keys(prefix, v, j + 1);
      KeysStep(prefix, v, j);
      ThenDone(prev, Build(key, es[j].1));
      KeysExtendPrefix(prefix, v, j + 1);
      EntrySmaller(v, j);
      BuildExtendsPrefix(key, es[j].1);
      BracketKeyExtends(prefix, es[j].0);
      AllExtendWeaken(prefix, key, Build(key, es[j].1).pairs);
      AllExtendConcat(prefix, prev.pairs, Build(key, es[j].1).pairs);
    }
  }

  /** `param({ids: [1, 2], active: true})` is `active=true`: the key `ids`, first in
      enumeration order, is skipped. */
  lemma FirstKeySkippedExample()
    ensures Build("", Obj([("ids", Arr([Prim("1"), Prim("2")])), ("active", Prim("true"))]))
         == Done([("active", "true")])
  {
    var v := Obj([("ids", Arr([Prim("1"), Prim("2")])), ("active", Prim("true"))]);
    KeysStep("", v, 1);
  }

  /** A pair made of unreserved characters is written as `key=value` verbatim. */
  lemma UnreservedPairText(p: Pair)
    requires forall i :: 0 <= i < |p.0| ==> IsUnreserved(p.0[i])
    requires forall i :: 0 <= i < |p.1| ==> IsUnreserved(p.1[i])
    ensures QueryText([p]) == p.0 + "=" + p.1
  {
    QueryTextForm([p]);
    assert FormEntries([p]) == [FormEntry(p)];
    UnreservedUnchanged(p.0);
    UnreservedUnchanged(p.1);
  }
}
