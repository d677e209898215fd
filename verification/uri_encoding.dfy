/** `encodeURIComponent` (ECMAScript, over UTF-8, leaving the RFC 3986 section 2.3
    unreserved marks and `!~*'()` alone and percent-encoding every other octet as in
    section 2.1 of RFC 3986), the `replace(/%20/g, '+')` step that turns its output into
    the `application/x-www-form-urlencoded` space convention, and a decoder that
    inverts the result. */
module UriEncoding {
  import opened Wrappers

  /** Characters `encodeURIComponent` leaves as they are. */
  predicate IsUnreserved(c: char) {
    ('A' <= c <= 'Z') || ('a' <= c <= 'z') || ('0' <= c <= '9') ||
    c == '-' || c == '_' || c == '.' || c == '!' || c == '~' || c == '*' ||
    c == '\'' || c == '(' || c == ')'
  }

  /** Upper-case hexadecimal digit, as `encodeURIComponent` writes them. */
  function HexDigit(n: nat): (c: char)
    requires n < 16
    ensures IsHexChar(c)
  {
    if n < 10 then ('0' as int + n) as char else ('A' as int + n - 10) as char
  }

  predicate IsHexChar(c: char) {
    ('0' <= c <= '9') || ('A' <= c <= 'F') || ('a' <= c <= 'f')
  }

  function HexValue(c: char): (n: nat)
    requires IsHexChar(c)
    ensures n < 16
  {
    if '0' <= c <= '9' then c as int - '0' as int
    else if 'A' <= c <= 'F' then c as int - 'A' as int + 10
    else c as int - 'a' as int + 10
  }

  lemma HexValueOfDigit(n: nat)
    requires n < 16
    ensures HexValue(HexDigit(n)) == n
  {
  }

  /** The UTF-8 encoding of one Unicode scalar value. */
  function Utf8(c: char): (r: seq<nat>)
    ensures 1 <= |r| <= 4
    ensures forall i :: 0 <= i < |r| ==> r[i] < 256
    ensures (r[0] == 0x20) <==> c == ' '
    ensures forall i :: 1 <= i < |r| ==> 0x80 <= r[i] < 0xC0
  {
    var n := c as int;
    if n < 0x80 then [n]
    else if n < 0x800 then [0xC0 + n / 64, 0x80 + n % 64]
    else if n < 0x10000 then [0xE0 + n / 4096, 0x80 + n / 64 % 64, 0x80 + n % 64]
    else [0xF0 + n / 0x40000, 0x80 + n / 4096 % 64, 0x80 + n / 64 % 64, 0x80 + n % 64]
  }

  predicate AreBytes(bs: seq<nat>) {
    forall i :: 0 <= i < |bs| ==> bs[i] < 256
  }

  /** `%XY` for one octet. */
  function PercentByte(b: nat): string
    requires b < 256
  {
    ['%', HexDigit(b / 16), HexDigit(b % 16)]
  }

  function PercentBytes(bs: seq<nat>): string
    requires AreBytes(bs)
  {
    if bs == [] then "" else PercentByte(bs[0]) + PercentBytes(bs[1..])
  }

  /** What `encodeURIComponent` writes for one character. */
  function EscapeChar(c: char): string {
    if IsUnreserved(c) then [c] else PercentBytes(Utf8(c))
  }

  /** `encodeURIComponent(s)`. */
  function EncodeURIComponent(s: string): string {
    if s == [] then "" else EscapeChar(s[0]) + EncodeURIComponent(s[1..])
  }

  /** What `encodeURIComponent` leaves out of its result: the query delimiters
      `&` and `=`, the characters `+` and space, and any `%` that does not open
      a two-digit escape. */
  lemma {:induction false} EncodeURIComponentShape(s: string)
    ensures NoDelimiters(EncodeURIComponent(s))
    ensures forall i :: 0 <= i < |EncodeURIComponent(s)| ==>
      EncodeURIComponent(s)[i] != '+' && EncodeURIComponent(s)[i] != ' '
    ensures WellEscaped(EncodeURIComponent(s))
  {
    if s != [] {
      var head, tail := EscapeChar(s[0]), EncodeURIComponent(s[1..]);
      EscapeCharShape(s[0]);
      EncodeURIComponentShape(s[1..]);
      WellEscapedConcat(head, tail);
      forall i | 0 <= i < |head + tail|
        ensures (head + tail)[i] != '&' && (head + tail)[i] != '=' && (head + tail)[i] != '+' && (head + tail)[i] != ' '
      {
        if i >= |head| { assert (head + tail)[i] == tail[i - |head|]; }
      }
    }
  }

  /** Neither `&` nor `=` occurs: the pieces of a query string stay apart. */
  predicate NoDelimiters(r: string) {
    forall i :: 0 <= i < |r| ==> r[i] != '&' && r[i] != '='
  }

  /** Every `%` opens an escape `%XY` of two hexadecimal digits: there is no bare `%`. */
  predicate WellEscaped(r: string) {
    forall i :: 0 <= i < |r| && r[i] == '%' ==> i + 2 < |r| && IsHexChar(r[i + 1]) && IsHexChar(r[i + 2])
  }

  lemma WellEscapedConcat(a: string, b: string)
    requires WellEscaped(a) && WellEscaped(b)
    ensures WellEscaped(a + b)
  {
    forall i | 0 <= i < |a + b| && (a + b)[i] == '%'
      ensures i + 2 < |a + b| && IsHexChar((a + b)[i + 1]) && IsHexChar((a + b)[i + 2])
    {
      if i >= |a| { assert (a + b)[i] == b[i - |a|]; }
    }
  }

  lemma {:induction false} PercentBytesShape(bs: seq<nat>)
    requires AreBytes(bs)
    ensures |PercentBytes(bs)| == 3 * |bs|
    ensures forall i :: 0 <= i < |PercentBytes(bs)| ==> PercentBytes(bs)[i] == '%' || IsHexChar(PercentBytes(bs)[i])
    ensures WellEscaped(PercentBytes(bs))
  {
    if bs != [] {
      PercentBytesShape(bs[1..]);
      WellEscapedConcat(PercentByte(bs[0]), PercentBytes(bs[1..]));
      var p, t := PercentByte(bs[0]), PercentBytes(bs[1..]);
      forall i | 0 <= i < |p + t| ensures (p + t)[i] == '%' || IsHexChar((p + t)[i]) {
        if i >= 3 { assert (p + t)[i] == t[i - 3]; }
      }
    }
  }

  lemma EscapeCharShape(c: char)
    ensures NoDelimiters(EscapeChar(c))
    ensures forall i :: 0 <= i < |EscapeChar(c)| ==> EscapeChar(c)[i] != '+' && EscapeChar(c)[i] != ' '
    ensures WellEscaped(EscapeChar(c))
  {
    if !IsUnreserved(c) { PercentBytesShape(Utf8(c)); }
  }

  /** `s.replace(/%20/g, '+')`: a left-to-right scan that replaces each
      non-overlapping occurrence of `%20`. */
  function ReplacePercent20(s: string): string
    decreases |s|
  {
    if Percent20At(s, 0) then "+" + ReplacePercent20(s[3..])
    else if s == [] then ""
    else [s[0]] + ReplacePercent20(s[1..])
  }

  /** `s` contains `%20` starting at `i`. */
  predicate Percent20At(s: string, i: int) {
    0 <= i && i + 3 <= |s| && s[i] == '%' && s[i + 1] == '2' && s[i + 2] == '0'
  }

  /** The rewrite leaves no `%20` behind, whatever its input. */
  lemma {:induction false} NoPercent20Left(s: string)
    ensures forall i :: !Percent20At(ReplacePercent20(s), i)
    decreases |s|
  {
    var r := ReplacePercent20(s);
    if Percent20At(s, 0) {
      var t := ReplacePercent20(s[3..]);
      NoPercent20Left(s[3..]);
      assert r == "+" + t;
      forall i | Percent20At(r, i) ensures false {
        assert Percent20At(t, i - 1);
      }
    } else if s != [] {
      var t := ReplacePercent20(s[1..]);
      NoPercent20Left(s[1..]);
      assert r == [s[0]] + t;
      forall i | Percent20At(r, i) ensures false {
        if i >= 1 {
          assert Percent20At(t, i - 1);
        } else {
          // t is '2' followed by the rewrite of s[2..], whose first character is not '0'
          ReplaceFirst(s[1..]);
          assert t == ['2'] + ReplacePercent20(s[2..]);
          ReplaceFirst(s[2..]);
        }
      }
    }
  }

  /** The rewrite starts with `+` for a leading `%20` and with the first character otherwise. */
  lemma ReplaceFirst(u: string)
    requires u != []
    ensures |ReplacePercent20(u)| >= 1
    ensures ReplacePercent20(u)[0] == if Percent20At(u, 0) then '+' else u[0]
  {
  }

  /** One character as the form serializer writes it: a space is `+`. */
  function FormEscapeChar(c: char): string {
    if c == ' ' then "+" else EscapeChar(c)
  }

  /** `encodeURIComponent` with spaces written as `+`: the
      `application/x-www-form-urlencoded` form of a key or a value. */
  function FormEncode(s: string): (r: string)
    ensures NoDelimiters(r)
  {
    if s == [] then "" else
      EscapeCharShape(s[0]);
      FormEscapeChar(s[0]) + FormEncode(s[1..])
  }

  /** A string of unreserved characters is its own `encodeURIComponent` and its
      own form encoding. */
  lemma {:induction false} UnreservedUnchanged(s: string)
    requires forall i :: 0 <= i < |s| ==> IsUnreserved(s[i])
    ensures EncodeURIComponent(s) == s
    ensures FormEncode(s) == s
  {
    if s != [] {
      UnreservedUnchanged(s[1..]);
      assert [s[0]] + s[1..] == s;
    }
  }

  /** A character other than `%` passes through the rewrite. */
  lemma ReplacePassesHead(c: char, t: string)
    requires c != '%'
    ensures ReplacePercent20([c] + t) == [c] + ReplacePercent20(t)
  {
    assert ([c] + t)[1..] == t;
  }

  /** An escape other than `%20` passes through the rewrite. */
  lemma ReplacePassesEscape(b: nat, t: string)
    requires b < 256 && b != 0x20
    ensures ReplacePercent20(PercentByte(b) + t) == PercentByte(b) + ReplacePercent20(t)
  {
    var x, y := HexDigit(b / 16), HexDigit(b % 16);
    assert !(x == '2' && y == '0');
    assert PercentByte(b) + t == ['%'] + ([x] + ([y] + t));
    ReplacePassesHead(y, t);
    ReplacePassesHead(x, [y] + t);
    assert !Percent20At(['%'] + ([x] + ([y] + t)), 0);
    assert (['%'] + ([x] + ([y] + t)))[1..] == [x] + ([y] + t);
  }

  lemma {:induction false} ReplaceAfterEscapes(bs: seq<nat>, rest: string)
    requires AreBytes(bs)
    requires forall i :: 0 <= i < |bs| ==> bs[i] != 0x20
    ensures ReplacePercent20(PercentBytes(bs) + rest) == PercentBytes(bs) + ReplacePercent20(rest)
  {
    if bs != [] {
      var tail := PercentBytes(bs[1..]) + rest;
      assert PercentBytes(bs) == PercentByte(bs[0]) + PercentBytes(bs[1..]);
      assert PercentBytes(bs) + rest == PercentByte(bs[0]) + tail;
      ReplacePassesEscape(bs[0], tail);
      ReplaceAfterEscapes(bs[1..], rest);
      assert PercentBytes(bs) + ReplacePercent20(rest)
          == PercentByte(bs[0]) + (PercentBytes(bs[1..]) + ReplacePercent20(rest));
    } else {
      assert PercentBytes(bs) + rest == rest;
    }
  }

  /** The rewrite turns one escaped character into its form encoding. */
  lemma ReplaceAfterEscapeChar(c: char, tail: string)
    ensures ReplacePercent20(EscapeChar(c) + tail) == FormEscapeChar(c) + ReplacePercent20(tail)
  {
    if c == ' ' {
      assert EscapeChar(c) == "%20";
      assert Percent20At("%20" + tail, 0);
      assert ("%20" + tail)[3..] == tail;
    } else if IsUnreserved(c) {
      ReplacePassesHead(c, tail);
    } else {
      ReplaceAfterEscapes(Utf8(c), tail);
    }
  }

  /** Chains the rewrite over two consecutive pieces. */
  lemma ReplaceJoin(e: string, u: string, rest: string, f: string, w: string)
    requires ReplacePercent20(e + (u + rest)) == f + ReplacePercent20(u + rest)
    requires ReplacePercent20(u + rest) == w + ReplacePercent20(rest)
    ensures ReplacePercent20((e + u) + rest) == (f + w) + ReplacePercent20(rest)
  {
    assert (e + u) + rest == e + (u + rest);
    assert f + (w + ReplacePercent20(rest)) == (f + w) + ReplacePercent20(rest);
  }

  /** Rewriting `%20` in `encodeURIComponent(s)` followed by anything gives the form
      encoding of `s` followed by the rewritten remainder: every `%20` the rewrite
      meets is exactly an encoded space. */
  lemma {:induction false} ReplaceAfterEncode(s: string, rest: string)
    ensures ReplacePercent20(EncodeURIComponent(s) + rest) == FormEncode(s) + ReplacePercent20(rest)
    decreases |s|
  {
    if s != [] {
      var u := EncodeURIComponent(s[1..]);
      ReplaceAfterEscapeChar(s[0], u + rest);
      ReplaceAfterEncode(s[1..], rest);
      ReplaceJoin(EscapeChar(s[0]), u, rest, FormEscapeChar(s[0]), FormEncode(s[1..]));
    } else {
      assert EncodeURIComponent(s) + rest == rest;
    }
  }

  /** Decodes `%XY`, `+` and plain ASCII characters into octets; `None` for a bare `%`
      or a non-ASCII character. */
  function PercentDecode(s: string): (r: Option<seq<nat>>)
    ensures r.Some? ==> AreBytes(r.value)
    decreases |s|
  {
    if s == [] then Some([])
    else if s[0] == '+' then Prepend([0x20], PercentDecode(s[1..]))
    else if s[0] == '%' then
      if |s| >= 3 && IsHexChar(s[1]) && IsHexChar(s[2])
      then Prepend([HexValue(s[1]) * 16 + HexValue(s[2])], PercentDecode(s[3..]))
      else None
    else if (s[0] as int) < 0x80 then Prepend([s[0] as int], PercentDecode(s[1..]))
    else None
  }

  /** The code point a UTF-8 sequence stands for, when it is a Unicode scalar value. */
  function ScalarChar(cp: int): Option<char> {
    if 0 <= cp < 0xD800 || 0xE000 <= cp < 0x11_0000 then Some(cp as char) else None
  }

  predicate IsContinuation(b: nat) {
    0x80 <= b < 0xC0
  }

  function PrependChar(c: Option<char>, rest: Option<string>): Option<string> {
    if c.None? then None else Prepend([c.value], rest)
  }

  /** Decodes UTF-8 octets into characters; `None` for a malformed sequence. */
  function Utf8Decode(bs: seq<nat>): Option<string>
    decreases |bs|
  {
    if bs == [] then Some("")
    else
      var b0 := bs[0];
      if b0 < 0x80 then PrependChar(ScalarChar(b0), Utf8Decode(bs[1..]))
      else if 0xC0 <= b0 < 0xE0 && |bs| >= 2 && IsContinuation(bs[1]) then
        PrependChar(ScalarChar((b0 - 0xC0) * 64 + (bs[1] - 0x80)), Utf8Decode(bs[2..]))
      else if 0xE0 <= b0 < 0xF0 && |bs| >= 3 && IsContinuation(bs[1]) && IsContinuation(bs[2]) then
        PrependChar(ScalarChar((b0 - 0xE0) * 4096 + (bs[1] - 0x80) * 64 + (bs[2] - 0x80)), Utf8Decode(bs[3..]))
      else if 0xF0 <= b0 < 0xF8 && |bs| >= 4 && IsContinuation(bs[1]) && IsContinuation(bs[2]) && IsContinuation(bs[3]) then
        PrependChar(ScalarChar((b0 - 0xF0) * 0x40000 + (bs[1] - 0x80) * 4096 + (bs[2] - 0x80) * 64 + (bs[3] - 0x80)),
                    Utf8Decode(bs[4..]))
      else None
  }

  /** Decodes one form-encoded key or value. */
  function FormDecode(s: string): Option<string> {
    var bytes := PercentDecode(s);
    if bytes.None? then None else Utf8Decode(bytes.value)
  }

  /** The UTF-8 octets of a whole string. */
  function Utf8All(s: string): (r: seq<nat>)
    ensures AreBytes(r)
  {
    if s == [] then [] else Utf8(s[0]) + Utf8All(s[1..])
  }

  lemma DecodeOneEscape(b: nat, tail: string)
    requires b < 256
    ensures PercentDecode(PercentByte(b) + tail) == Prepend([b], PercentDecode(tail))
  {
    HexValueOfDigit(b / 16);
    HexValueOfDigit(b % 16);
    var u := PercentByte(b) + tail;
    assert u[0] == '%' && u[1] == HexDigit(b / 16) && u[2] == HexDigit(b % 16);
    assert u[3..] == tail;
  }

  lemma {:induction false} DecodeEscapes(bs: seq<nat>, t: string)
    requires AreBytes(bs)
    ensures PercentDecode(PercentBytes(bs) + t) == Prepend(bs, PercentDecode(t))
  {
    if bs == [] {
      assert PercentBytes(bs) + t == t;
      if PercentDecode(t).Some? { assert [] + PercentDecode(t).value == PercentDecode(t).value; }
    } else {
      var tail := PercentBytes(bs[1..]) + t;
      assert PercentBytes(bs) + t == PercentByte(bs[0]) + tail;
      DecodeOneEscape(bs[0], tail);
      DecodeEscapes(bs[1..], t);
      PrependTwice([bs[0]], bs[1..], PercentDecode(t));
      assert [bs[0]] + bs[1..] == bs;
    }
  }

  /** Decoding undoes the form encoding of one character, down to its UTF-8 octets. */
  lemma DecodeFormChar(c: char, t: string)
    ensures PercentDecode(FormEscapeChar(c) + t) == Prepend(Utf8(c), PercentDecode(t))
  {
    if c == ' ' {
      assert ("+" + t)[1..] == t;
    } else if IsUnreserved(c) {
      assert ([c] + t)[1..] == t;
    } else {
      DecodeEscapes(Utf8(c), t);
    }
  }

  lemma {:induction false} PercentDecodeForm(s: string)
    ensures PercentDecode(FormEncode(s)) == Some(Utf8All(s))
    decreases |s|
  {
    if s != [] {
      DecodeFormChar(s[0], FormEncode(s[1..]));
      PercentDecodeForm(s[1..]);
    }
  }

  lemma Div64(n: int)
    requires 0 <= n
    ensures n == (n / 64) * 64 + n % 64
    ensures n / 4096 == (n / 64) / 64
    ensures n / 0x40000 == (n / 4096) / 64
  {
  }

  /** Decoding the UTF-8 octets of one character gives the character back. */
  lemma DecodeUtf8Char(c: char, t: seq<nat>)
    ensures Utf8Decode(Utf8(c) + t) == PrependChar(Some(c), Utf8Decode(t))
  {
    var n := c as int;
    Div64(n);
    Div64(n / 64);
    Div64(n / 4096);
    if n < 0x80 {
      assert (Utf8(c) + t)[1..] == t;
    } else if n < 0x800 {
      DecodeUtf8Two(c, t);
    } else if n < 0x10000 {
      DecodeUtf8Three(c, t);
    } else {
      DecodeUtf8Four(c, t);
    }
  }

  lemma DecodeUtf8Two(c: char, t: seq<nat>)
    requires 0x80 <= c as int < 0x800
    requires c as int == (c as int / 64) * 64 + c as int % 64
    ensures Utf8Decode(Utf8(c) + t) == PrependChar(Some(c), Utf8Decode(t))
  {
    var bs := Utf8(c) + t;
    assert bs[2..] == t;
    assert (bs[0] - 0xC0) * 64 + (bs[1] - 0x80) == c as int;
  }

  lemma DecodeUtf8Three(c: char, t: seq<nat>)
    requires 0x800 <= c as int < 0x10000
    requires c as int == (c as int / 64) * 64 + c as int % 64
    requires c as int / 64 == (c as int / 4096) * 64 + c as int / 64 % 64
    ensures Utf8Decode(Utf8(c) + t) == PrependChar(Some(c), Utf8Decode(t))
  {
    var bs := Utf8(c) + t;
    assert bs[3..] == t;
    assert (bs[0] - 0xE0) * 4096 + (bs[1] - 0x80) * 64 + (bs[2] - 0x80) == c as int;
  }

  lemma DecodeUtf8Four(c: char, t: seq<nat>)
    requires 0x10000 <= c as int
    requires c as int == (c as int / 64) * 64 + c as int % 64
    requires c as int / 64 == (c as int / 4096) * 64 + c as int / 64 % 64
    requires c as int / 4096 == (c as int / 0x40000) * 64 + c as int / 4096 % 64
    ensures Utf8Decode(Utf8(c) + t) == PrependChar(Some(c), Utf8Decode(t))
  {
    var bs := Utf8(c) + t;
    assert bs[4..] == t;
    assert (bs[0] - 0xF0) * 0x40000 + (bs[1] - 0x80) * 4096 + (bs[2] - 0x80) * 64 + (bs[3] - 0x80) == c as int;
  }

  lemma {:induction false} Utf8RoundTrip(s: string)
    ensures Utf8Decode(Utf8All(s)) == Some(s)
    decreases |s|
  {
    if s != [] {
      DecodeUtf8Char(s[0], Utf8All(s[1..]));
      Utf8RoundTrip(s[1..]);
      assert [s[0]] + s[1..] == s;
    }
  }

  /** Decoding a form-encoded key or value gives back exactly the original string,
      for every string: the encoding loses nothing. */
  lemma FormRoundTrip(s: string)
    ensures FormDecode(FormEncode(s)) == Some(s)
  {
    PercentDecodeForm(s);
    Utf8RoundTrip(s);
  }
}
