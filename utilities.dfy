/**
 * The client's fetch helpers and access checks: query-string building with
 * `encodeURIComponent`, the response body/throw decision, `hasAccess` and the
 * stage selection of `getStage`.
 */
module Utilities {
  import opened Common

  // ---------------------------------------------------------------- encodeURIComponent

  /** The characters `encodeURIComponent` leaves as they are. */
  predicate Unreserved(c: char) {
    || 'A' <= c <= 'Z' || 'a' <= c <= 'z' || '0' <= c <= '9'
    || c == '-' || c == '_' || c == '.' || c == '!' || c == '~' || c == '*'
    || c == '\'' || c == '(' || c == ')'
  }

  type Byte = b: int | 0 <= b < 256

  /** The UTF-8 encoding of one Unicode scalar value. */
  function Utf8(c: char): (bytes: seq<Byte>)
    ensures 1 <= |bytes| <= 4
    ensures c as int < 0x80 <==> bytes == [c as int]
  {
    var cp := c as int;
    if cp < 0x80 then [cp]
    else if cp < 0x800 then [0xC0 + cp / 64, 0x80 + cp % 64]
    else if cp < 0x10000 then [0xE0 + cp / 4096, 0x80 + (cp / 64) % 64, 0x80 + cp % 64]
    else [0xF0 + cp / 262144, 0x80 + (cp / 4096) % 64, 0x80 + (cp / 64) % 64, 0x80 + cp % 64]
  }

  function Utf8Bytes(s: string): (bytes: seq<Byte>) {
    if s == [] then [] else Utf8(s[0]) + Utf8Bytes(s[1..])
  }

  function HexDigit(d: nat): (c: char)
    requires d < 16
    ensures Unreserved(c)
  {
    "0123456789ABCDEF"[d]
  }

  predicate IsHex(c: char) { '0' <= c <= '9' || 'A' <= c <= 'F' || 'a' <= c <= 'f' }

  function HexValue(c: char): (d: nat)
    requires IsHex(c)
    ensures d < 16
  {
    if '0' <= c <= '9' then c as int - '0' as int
    else if 'A' <= c <= 'F' then c as int - 'A' as int + 10
    else c as int - 'a' as int + 10
  }

  lemma HexDigitValue(d: nat)
    requires d < 16
    ensures IsHex(HexDigit(d)) && HexValue(HexDigit(d)) == d
  {
  }

  /** `%XY` for each byte, upper-case hex. */
  function PercentEncode(bytes: seq<Byte>): (s: string)
    ensures |s| == 3 * |bytes|
    ensures forall i :: 0 <= i < |s| ==> Unreserved(s[i]) || s[i] == '%'
  {
    if bytes == [] then ""
    else ['%', HexDigit(bytes[0] / 16), HexDigit(bytes[0] % 16)] + PercentEncode(bytes[1..])
  }

  function EncodeChar(c: char): (s: string)
    ensures forall i :: 0 <= i < |s| ==> Unreserved(s[i]) || s[i] == '%'
  {
    if Unreserved(c) then [c] else PercentEncode(Utf8(c))
  }

  /** `encodeURIComponent` of a string of Unicode scalar values. */
  function EncodeUriComponent(s: string): (e: string)
    ensures forall i :: 0 <= i < |e| ==> Unreserved(e[i]) || e[i] == '%'
  {
    if s == [] then "" else EncodeChar(s[0]) + EncodeUriComponent(s[1..])
  }

  /** Percent-decoding to bytes: `%XY` is one byte, any other character stands for its own code. */
  function PercentDecode(t: string): seq<int> {
    if t == [] then []
    else if |t| >= 3 && t[0] == '%' && IsHex(t[1]) && IsHex(t[2])
    then [HexValue(t[1]) * 16 + HexValue(t[2])] + PercentDecode(t[3..])
    else [t[0] as int] + PercentDecode(t[1..])
  }

  lemma DecodeEscape(b: Byte, t: string)
    ensures PercentDecode(['%', HexDigit(b / 16), HexDigit(b % 16)] + t) == [b] + PercentDecode(t)
  {
    HexDigitValue(b / 16);
    HexDigitValue(b % 16);
    var x := ['%', HexDigit(b / 16), HexDigit(b % 16)] + t;
    assert x[0] == '%' && x[1] == HexDigit(b / 16) && x[2] == HexDigit(b % 16);
    assert x[3..] == t;
  }

  lemma ConsConcat(xs: seq<Byte>, ys: seq<int>)
    requires xs != []
    ensures xs + ys == [xs[0] as int] + (xs[1..] + ys)
  {
  }

  lemma {:induction false} PercentDecodeEncoded(bytes: seq<Byte>, rest: string)
    ensures PercentDecode(PercentEncode(bytes) + rest) == bytes + PercentDecode(rest)
  {
    if bytes == [] {
      assert PercentEncode(bytes) + rest == rest;
    } else {
      var b := bytes[0];
      var tail := PercentEncode(bytes[1..]);
      var esc := ['%', HexDigit(b / 16), HexDigit(b % 16)];
      assert PercentEncode(bytes) + rest == esc + (tail + rest);
      DecodeEscape(b, tail + rest);
      PercentDecodeEncoded(bytes[1..], rest);
      ConsConcat(bytes, PercentDecode(rest));
    }
  }

  /** `encodeURIComponent` round-trips: percent-decoding its output gives the UTF-8 bytes. */
  lemma {:induction false} DecodeEncodeUriComponent(s: string)
    ensures PercentDecode(EncodeUriComponent(s)) == Utf8Bytes(s)
  {
    if s != [] {
      var c := s[0];
      var rest := EncodeUriComponent(s[1..]);
      DecodeEncodeUriComponent(s[1..]);
      if Unreserved(c) {
        assert ([c] + rest)[1..] == rest;
      } else {
        PercentDecodeEncoded(Utf8(c), rest);
      }
    }
  }

  // ---------------------------------------------------------------- formatParams and get

  /** The parts with the separator between each two. */
  function Join(parts: seq<string>, sep: char): string {
    if parts == [] then ""
    else if |parts| == 1 then parts[0]
    else parts[0] + [sep] + Join(parts[1..], sep)
  }

  /** `formatParams`: `key=encodeURIComponent(value)` per key, in key order, joined by `&`. */
  function FormatParams(params: seq<(string, string)>): string {
    Join(seq(|params|, i requires 0 <= i < |params| => params[i].0 + "=" + EncodeUriComponent(params[i].1)), '&')
  }

  /** `get`'s path: the endpoint, always a `?`, then the parameters. */
  function GetPath(endpoint: string, params: seq<(string, string)>): (path: string)
    ensures |path| > |endpoint| && path[..|endpoint|] == endpoint && path[|endpoint|] == '?'
    ensures params == [] ==> path == endpoint + "?"
  {
    endpoint + "?" + FormatParams(params)
  }

  /** The pieces between the separators, empty ones included. */
  function Split(s: string, sep: char): (parts: seq<string>)
    ensures |parts| >= 1
  {
    if s == [] then [""]
    else
      var rest := Split(s[1..], sep);
      if s[0] == sep then [""] + rest else [[s[0]] + rest[0]] + rest[1..]
  }

  lemma {:induction false} SplitPrefix(a: string, t: string, sep: char)
    requires sep !in a
    ensures Split(a + t, sep) == [a + Split(t, sep)[0]] + Split(t, sep)[1..]
  {
    if a == [] {
      var r := Split(t, sep);
      assert a + t == t;
      assert a + r[0] == r[0];
      assert [r[0]] + r[1..] == r;
    } else {
      assert (a + t)[0] == a[0] != sep;
      assert (a + t)[1..] == a[1..] + t;
      assert sep !in a[1..];
      SplitPrefix(a[1..], t, sep);
      assert [a[0]] + (a[1..] + Split(t, sep)[0]) == a + Split(t, sep)[0];
    }
  }

  /** Splitting a join gives the parts back when no part holds the separator. */
  lemma {:induction false} SplitJoin(parts: seq<string>, sep: char)
    requires |parts| >= 1
    requires forall i :: 0 <= i < |parts| ==> sep !in parts[i]
    ensures Split(Join(parts, sep), sep) == parts
  {
    if |parts| == 1 {
      SplitPrefix(parts[0], "", sep);
      assert parts[0] + "" == parts[0];
    } else {
      var tail := Join(parts[1..], sep);
      SplitPrefix(parts[0], [sep] + tail, sep);
      assert ([sep] + tail)[1..] == tail;
      assert Split([sep] + tail, sep) == [""] + Split(tail, sep);
      assert parts[0] + "" == parts[0];
      SplitJoin(parts[1..], sep);
      assert parts[0] + [sep] + tail == parts[0] + ([sep] + tail);
      assert parts == [parts[0]] + parts[1..];
    }
  }

  /** A `key=value` pair split at its first `=`. */
  function SplitPair(part: string): (string, string) {
    if '=' !in part then (part, "")
    else if part[0] == '=' then ("", part[1..])
    else
      var (k, v) := SplitPair(part[1..]);
      ([part[0]] + k, v)
  }

  lemma {:induction false} SplitPairOf(k: string, v: string)
    requires '=' !in k
    ensures SplitPair(k + "=" + v) == (k, v)
  {
    var x := k + "=" + v;
    assert x[|k|] == '=';
    if k == [] {
      assert x[1..] == v;
    } else {
      assert x[0] == k[0] != '=';
      assert x[1..] == k[1..] + "=" + v;
      SplitPairOf(k[1..], v);
      assert [k[0]] + k[1..] == k;
    }
  }

  /** Reads a query string back into `(key, encoded value)` pairs. */
  function ParseQuery(query: string): seq<(string, string)> {
    if query == [] then []
    else
      var parts := Split(query, '&');
      seq(|parts|, i requires 0 <= i < |parts| => SplitPair(parts[i]))
  }

  /**
   * `formatParams` round-trips: an empty object gives `""`, and otherwise the pairs come
   * back in key order with each value encoded, when no key holds `&` or `=`.
   */
  lemma FormatParamsRoundTrip(params: seq<(string, string)>)
    requires forall i :: 0 <= i < |params| ==> '&' !in params[i].0 && '=' !in params[i].0
    ensures params == [] <==> FormatParams(params) == ""
    ensures ParseQuery(FormatParams(params))
         == seq(|params|, i requires 0 <= i < |params| => (params[i].0, EncodeUriComponent(params[i].1)))
  {
    var parts := seq(|params|, i requires 0 <= i < |params| => params[i].0 + "=" + EncodeUriComponent(params[i].1));
    assert FormatParams(params) == Join(parts, '&');
    if params != [] {
      forall i | 0 <= i < |parts| ensures '&' !in parts[i] {
        var e := EncodeUriComponent(params[i].1);
        assert forall j :: 0 <= j < |e| ==> e[j] != '&';
        assert parts[i] == params[i].0 + "=" + e;
      }
      SplitJoin(parts, '&');
      assert |Join(parts, '&')| >= |parts[0]| + 0 by {
        if |parts| > 1 {
          assert Join(parts, '&') == parts[0] + ['&'] + Join(parts[1..], '&');
        }
      }
      assert |parts[0]| >= 1;
      forall i | 0 <= i < |parts| ensures SplitPair(parts[i]) == (params[i].0, EncodeUriComponent(params[i].1)) {
        SplitPairOf(params[i].0, EncodeUriComponent(params[i].1));
      }
    }
  }

  // ---------------------------------------------------------------- processResponse

  /** The response body: parsed JSON, or the raw text when it is not JSON. */
  datatype Body<V> = Json(value: V) | Text(text: string)

  /** How the promise settles: with the body, or rejected with the body thrown. */
  datatype Settled<V> = Resolved(body: Body<V>) | Thrown(body: Body<V>)

  /**
   * `processResponse`: try `JSON.parse` on the text (`parse` gives nothing for a
   * syntax error), then throw the body unless the response is ok.
   */
  function ProcessResponse<V>(text: string, ok: bool, parse: string -> Option<V>): (r: Settled<V>)
    ensures r.Thrown? <==> !ok
    ensures parse(text).None? ==> r.body == Text(text)
    ensures parse(text).Some? ==> r.body == Json(parse(text).value)
  {
    var output := match parse(text) case Some(v) => Json(v) case None => Text(text);
    if !ok then Thrown(output) else Resolved(output)
  }

  // ---------------------------------------------------------------- hasAccess

  datatype Role = Role(role: string, tourney: string)

  /** A user as the client sees it; `roles` is missing on users that have none. */
  datatype User = User(username: string, admin: bool, roles: Option<seq<Role>>)

  /** Whether some role belongs to the tournament and has one of the given names. */
  function SomeRole(roles: seq<Role>, tourney: string, names: seq<string>): (b: bool)
    ensures b <==> exists i :: 0 <= i < |roles| && roles[i].tourney == tourney && roles[i].role in names
  {
    if roles == [] then false
    else if roles[0].tourney == tourney && roles[0].role in names then true
    else
      assert forall i :: 1 <= i < |roles| ==> roles[i] == roles[1..][i - 1];
      SomeRole(roles[1..], tourney, names)
  }

  /**
   * `hasAccess`: falsy without a username, true for an admin, otherwise whether some
   * role of that tournament is Host, Developer or one of `userRoles`; reading the
   * roles of a non-admin user without any throws (`None`).
   */
  function HasAccess(user: User, tourney: string, userRoles: seq<string>): Option<bool> {
    if user.username == "" then Some(false)
    else if user.admin then Some(true)
    else match user.roles
      case None => None
      case Some(roles) => Some(SomeRole(roles, tourney, ["Host", "Developer"] + userRoles))
  }

  lemma HasAccessSpec(user: User, tourney: string, userRoles: seq<string>)
    ensures user.username == "" ==> HasAccess(user, tourney, userRoles) == Some(false)
    ensures user.username != "" && user.admin ==> HasAccess(user, tourney, userRoles) == Some(true)
    ensures user.username != "" && !user.admin && user.roles.Some? ==>
      var roles := user.roles.value;
      (HasAccess(user, tourney, userRoles) == Some(true) <==>
        exists i :: 0 <= i < |roles| && roles[i].tourney == tourney
          && (roles[i].role == "Host" || roles[i].role == "Developer" || roles[i].role in userRoles))
  {
  }

  // ---------------------------------------------------------------- parseInt

  /** The white space and line terminators `parseInt` skips before the number. */
  predicate IsJsSpace(c: char) {
    var n := c as int;
    n == 0x09 || n == 0x0A || n == 0x0B || n == 0x0C || n == 0x0D || n == 0x20 || n == 0xA0
    || n == 0x1680 || (0x2000 <= n <= 0x200A) || n == 0x2028 || n == 0x2029 || n == 0x202F
    || n == 0x205F || n == 0x3000 || n == 0xFEFF
  }

  function TrimStart(s: string): (t: string)
    ensures |t| <= |s|
    ensures t != [] ==> !IsJsSpace(t[0])
  {
    if s != [] && IsJsSpace(s[0]) then TrimStart(s[1..]) else s
  }

  function DigitIn(c: char, radix: nat): Option<nat> {
    var d := if '0' <= c <= '9' then c as int - '0' as int
             else if 'a' <= c <= 'z' then c as int - 'a' as int + 10
             else if 'A' <= c <= 'Z' then c as int - 'A' as int + 10
             else 36;
    if d < radix then Some(d) else None
  }

  /** The length of the run of radix digits at the start of `s`. */
  function DigitRun(s: string, radix: nat): (n: nat)
    ensures n <= |s|
    ensures forall i :: 0 <= i < n ==> DigitIn(s[i], radix).Some?
    ensures n < |s| ==> DigitIn(s[n], radix).None?
  {
    if s != [] && DigitIn(s[0], radix).Some? then 1 + DigitRun(s[1..], radix) else 0
  }

  function DigitsValue(s: string, radix: nat): nat
    requires forall i :: 0 <= i < |s| ==> DigitIn(s[i], radix).Some?
  {
    if s == [] then 0
    else
      var init := s[..|s| - 1];
      assert forall i :: 0 <= i < |init| ==> init[i] == s[i];
      DigitsValue(init, radix) * radix + DigitIn(s[|s| - 1], radix).value
  }

  /**
   * The digits after the sign: `0x`/`0X` switches to radix 16, and the longest run of
   * radix digits is read; an empty run is NaN (`None`).
   */
  function ParseUnsigned(u: string): Option<nat> {
    var hex := |u| >= 2 && u[0] == '0' && (u[1] == 'x' || u[1] == 'X');
    var radix := if hex then 16 else 10;
    var digits := if hex then u[2..] else u;
    var n := DigitRun(digits, radix);
    if n == 0 then None else Some(DigitsValue(digits[..n], radix))
  }

  /** `parseInt(s)` without a radix: leading white space, an optional sign, the digits. */
  function ParseInt(s: string): Option<int> {
    var t := TrimStart(s);
    if t != [] && t[0] == '-' then
      match ParseUnsigned(t[1..]) case Some(v) => Some(0 - v as int) case None => None
    else if t != [] && t[0] == '+' then
      match ParseUnsigned(t[1..]) case Some(v) => Some(v) case None => None
    else
      match ParseUnsigned(t) case Some(v) => Some(v) case None => None
  }

  lemma {:induction false} DigitsValueDecimal(s: string)
    requires AllDigits(s)
    ensures forall i :: 0 <= i < |s| ==> DigitIn(s[i], 10).Some?
    ensures DigitsValue(s, 10) == ParseDecimal(s)
  {
    if s != [] {
      DigitsValueDecimal(s[..|s| - 1]);
    }
  }

  lemma {:induction false} DigitRunPrefix(d: string, rest: string)
    requires AllDigits(d)
    requires rest == [] || !IsDigit(rest[0])
    ensures DigitRun(d + rest, 10) == |d|
  {
    if d != [] {
      assert (d + rest)[0] == d[0];
      assert (d + rest)[1..] == d[1..] + rest;
      DigitRunPrefix(d[1..], rest);
    } else {
      assert d + rest == rest;
    }
  }

  /** The digits of a decimal number, followed by anything but a digit or `x`, read back. */
  lemma ParseUnsignedDecimal(n: nat, rest: string)
    requires rest == [] || (!IsDigit(rest[0]) && rest[0] != 'x' && rest[0] != 'X')
    ensures ParseUnsigned(Decimal(n) + rest) == Some(n)
  {
    var d := Decimal(n);
    var u := d + rest;
    assert u[0] == d[0];
    assert |u| >= 2 && u[0] == '0' ==> u[1] == rest[0] by {
      if u[0] == '0' {
        assert |d| == 1;
      }
    }
    DigitRunPrefix(d, rest);
    assert u[..|d|] == d;
    DigitsValueDecimal(d);
    ParseDecimalOfDecimal(n);
  }

  lemma ParseIntUnsigned(u: string)
    requires u != [] && IsDigit(u[0])
    ensures ParseInt(u) == match ParseUnsigned(u) case Some(v) => Some(v as int) case None => None
  {
    assert TrimStart(u) == u;
  }

  lemma ParseIntSign(u: string)
    ensures ParseInt("-" + u) == match ParseUnsigned(u) case Some(v) => Some(0 - v as int) case None => None
  {
    var t := "-" + u;
    assert t[0] == '-' && t[1..] == u;
    assert TrimStart(t) == t;
  }

  lemma ParseIntSpace(u: string)
    ensures ParseInt(" " + u) == ParseInt(u)
  {
    var t := " " + u;
    assert t[0] == ' ' && t[1..] == u;
    assert TrimStart(t) == TrimStart(u);
  }

  /**
   * `parseInt` reads a decimal number back, after leading white space and a sign,
   * stopping at the first character that is not a digit.
   */
  lemma ParseIntDecimal(n: nat, rest: string)
    requires rest == [] || (!IsDigit(rest[0]) && rest[0] != 'x' && rest[0] != 'X')
    ensures ParseInt(Decimal(n) + rest) == Some(n)
  {
    var u := Decimal(n) + rest;
    ParseUnsignedDecimal(n, rest);
    assert u[0] == Decimal(n)[0];
    ParseIntUnsigned(u);
  }

  /** A minus sign negates the number read. */
  lemma ParseIntNegative(n: nat, rest: string)
    requires rest == [] || (!IsDigit(rest[0]) && rest[0] != 'x' && rest[0] != 'X')
    ensures ParseInt("-" + (Decimal(n) + rest)) == Some(0 - n as int)
  {
    ParseUnsignedDecimal(n, rest);
    ParseIntSign(Decimal(n) + rest);
  }

  /** Leading white space is skipped. */
  lemma ParseIntLeadingSpace(n: nat, rest: string)
    requires rest == [] || (!IsDigit(rest[0]) && rest[0] != 'x' && rest[0] != 'X')
    ensures ParseInt(" " + (Decimal(n) + rest)) == Some(n)
  {
    ParseIntSpace(Decimal(n) + rest);
    ParseIntDecimal(n, rest);
  }

  // ---------------------------------------------------------------- getStage

  datatype Stage = Stage(name: string, poolVisible: bool)

  /** The second element of `getStage`'s result: `{}` or the stage with its `index`. */
  datatype CurrentStage = NoStage | At(stage: Stage, index: int)

  function VisibleCount(stages: seq<Stage>): (n: nat)
    ensures n <= |stages|
    ensures n == 0 <==> forall i :: 0 <= i < |stages| ==> !stages[i].poolVisible
    ensures n == |stages| <==> forall i :: 0 <= i < |stages| ==> stages[i].poolVisible
  {
    if stages == [] then 0
    else
      assert forall i :: 1 <= i < |stages| ==> stages[i] == stages[1..][i - 1];
      (if stages[0].poolVisible then 1 else 0) + VisibleCount(stages[1..])
  }

  /**
   * `getStage` after the tournament was fetched: `fragment` is `location.hash` without
   * its `#`. No stage gives `{}`; otherwise the index is the last visible pool, or the
   * parsed fragment (0 for NaN), and an out-of-range index falls back to the first stage.
   */
  function GetStage(stages: Option<seq<Stage>>, fragment: string): CurrentStage {
    if stages.None? || stages.value == [] then NoStage
    else
      var all := stages.value;
      var curIndex := if fragment == "" then VisibleCount(all) - 1 else ParseInt(fragment).GetOr(0);
      var current := if 0 <= curIndex < |all| then all[curIndex] else all[0];
      At(current, curIndex)
  }

  lemma GetStageSpec(stages: Option<seq<Stage>>, fragment: string)
    ensures GetStage(stages, fragment).NoStage? <==> stages.None? || stages.value == []
    ensures GetStage(stages, fragment).At? ==>
      var all, r := stages.value, GetStage(stages, fragment);
      && (fragment == "" ==> r.index == VisibleCount(all) - 1 && -1 <= r.index < |all|)
      && (fragment != "" ==> r.index == match ParseInt(fragment) case Some(v) => v case None => 0)
      && r.stage == (if 0 <= r.index < |all| then all[r.index] else all[0])
  {
  }

  /** With no visible pool and no fragment, the first stage is shown with index -1. */
  lemma GetStageNoVisiblePool(s: Stage)
    requires !s.poolVisible
    ensures GetStage(Some([s, s]), "") == At(s, -1)
  {
    assert VisibleCount([s, s]) == 0;
  }

  /** `#2` selects the third stage; `#7` is out of range and `#x` is NaN, both select the first. */
  lemma GetStageByFragment(a: Stage, b: Stage, c: Stage)
    ensures GetStage(Some([a, b, c]), "2") == At(c, 2)
    ensures GetStage(Some([a, b, c]), "7") == At(a, 7)
    ensures GetStage(Some([a, b, c]), "x") == At(a, 0)
  {
    assert Decimal(2) + "" == "2";
    ParseIntDecimal(2, "");
    assert Decimal(7) + "" == "7";
    ParseIntDecimal(7, "");
    assert ParseInt("x") == None by {
      assert TrimStart("x") == "x";
      assert DigitRun("x", 10) == 0;
    }
  }
}
