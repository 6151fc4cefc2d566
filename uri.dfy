/** `encodeURIComponent` and the query string the browser builds for a
    package download. */
module UriEncoding {
  import opened Wrappers
  import opened Strings

  /** The characters `encodeURIComponent` leaves alone. */
  predicate Unreserved(c: char) {
    ('A' <= c <= 'Z') || ('a' <= c <= 'z') || ('0' <= c <= '9') || c in "-_.!~*'()"
  }

  const HexDigits: string := "0123456789ABCDEF"

  function HexDigit(d: int): char
    requires 0 <= d < 16
  {
    assert |HexDigits| == 16;
    HexDigits[d]
  }

  predicate IsByte(b: int) {
    0 <= b < 256
  }

  /** The UTF-8 bytes of one Unicode scalar value. */
  function Utf8(c: char): (bs: seq<int>)
    ensures 1 <= |bs| <= 4
    ensures forall i :: 0 <= i < |bs| ==> IsByte(bs[i])
    ensures c as int < 0x80 ==> bs == [c as int]
  {
    var cp := c as int;
    if cp < 0x80 then [cp]
    else if cp < 0x800 then [0xC0 + cp / 64, 0x80 + cp % 64]
    else if cp < 0x10000 then [0xE0 + cp / 4096, 0x80 + (cp / 64) % 64, 0x80 + cp % 64]
    else [0xF0 + cp / 262144, 0x80 + (cp / 4096) % 64, 0x80 + (cp / 64) % 64, 0x80 + cp % 64]
  }

  /** The UTF-8 bytes of a whole string. */
  function Utf8String(s: string): seq<int>
    decreases |s|
  {
    if |s| == 0 then [] else Utf8(s[0]) + Utf8String(s[1..])
  }

  /** `%HH` for each byte, with upper-case hex digits. */
  function Percent(bs: seq<int>): (r: string)
    requires forall i :: 0 <= i < |bs| ==> IsByte(bs[i])
    ensures |r| == 3 * |bs|
    decreases |bs|
  {
    if |bs| == 0 then ""
    else PercentByte(bs[0]) + Percent(bs[1..])
  }

  function PercentByte(b: int): (r: string)
    requires IsByte(b)
    ensures |r| == 3
  {
    ['%', HexDigit(b / 16), HexDigit(b % 16)]
  }

  function EncodeChar(c: char): string {
    if Unreserved(c) then [c] else Percent(Utf8(c))
  }

  /** `encodeURIComponent(s)`. */
  function Encode(s: string): string
    decreases |s|
  {
    if |s| == 0 then "" else EncodeChar(s[0]) + Encode(s[1..])
  }

  /** Only unreserved characters and `%` appear in an encoded string, so in
      particular no `&`, `=`, `#`, `+` or space. */
  lemma {:induction false} EncodedAlphabet(s: string)
    ensures forall i :: 0 <= i < |Encode(s)| ==> Unreserved(Encode(s)[i]) || Encode(s)[i] == '%'
    decreases |s|
  {
    if |s| > 0 {
      EncodedAlphabet(s[1..]);
      if !Unreserved(s[0]) {
        PercentAlphabet(Utf8(s[0]));
      }
    }
  }

  lemma {:induction false} PercentAlphabet(bs: seq<int>)
    requires forall i :: 0 <= i < |bs| ==> IsByte(bs[i])
    ensures forall i :: 0 <= i < |Percent(bs)| ==> Unreserved(Percent(bs)[i]) || Percent(bs)[i] == '%'
    decreases |bs|
  {
    if |bs| > 0 {
      PercentAlphabet(bs[1..]);
    }
  }

  /** A string of unreserved characters is its own encoding. */
  lemma {:induction false} EncodeUnreserved(s: string)
    requires forall i :: 0 <= i < |s| ==> Unreserved(s[i])
    ensures Encode(s) == s
    decreases |s|
  {
    if |s| > 0 {
      EncodeUnreserved(s[1..]);
      assert [s[0]] + s[1..] == s;
    }
  }

  function HexValue(c: char): (v: int)
    ensures 0 <= v < 16
  {
    if '0' <= c <= '9' then c as int - '0' as int
    else if 'A' <= c <= 'F' then c as int - 'A' as int + 10
    else if 'a' <= c <= 'f' then c as int - 'a' as int + 10
    else 0
  }

  predicate IsHex(c: char) {
    ('0' <= c <= '9') || ('A' <= c <= 'F') || ('a' <= c <= 'f')
  }

  /** Percent-decoding to bytes: `%HH` is one byte, any other character
      stands for its own code point. */
  function PercentDecode(t: string): seq<int>
    decreases |t|
  {
    if |t| == 0 then []
    else if |t| >= 3 && t[0] == '%' && IsHex(t[1]) && IsHex(t[2]) then
      [HexValue(t[1]) * 16 + HexValue(t[2])] + PercentDecode(t[3..])
    else [t[0] as int] + PercentDecode(t[1..])
  }

  lemma HexDigitRoundTrip(d: int)
    requires 0 <= d < 16
    ensures IsHex(HexDigit(d)) && HexValue(HexDigit(d)) == d
  {
  }

  /** One `%HH` triple decodes to its byte. */
  lemma DecodeByte(b: int, tail: string)
    requires IsByte(b)
    ensures PercentDecode(PercentByte(b) + tail) == [b] + PercentDecode(tail)
  {
    HexDigitRoundTrip(b / 16);
    HexDigitRoundTrip(b % 16);
    var t := PercentByte(b) + tail;
    assert t[0] == '%' && t[1] == HexDigit(b / 16) && t[2] == HexDigit(b % 16);
    assert t[3..] == tail;
    assert (b / 16) * 16 + b % 16 == b;
  }

  lemma {:induction false} DecodePercent(bs: seq<int>, rest: string)
    requires forall i :: 0 <= i < |bs| ==> IsByte(bs[i])
    ensures PercentDecode(Percent(bs) + rest) == bs + PercentDecode(rest)
    decreases |bs|
  {
    if |bs| > 0 {
      var b := bs[0];
      var more := bs[1..];
      var tail := Percent(more) + rest;
      PercentCons(bs, rest);
      DecodeByte(b, tail);
      DecodePercent(more, rest);
      var d := PercentDecode(rest);
      assert PercentDecode(Percent(bs) + rest) == [b] + (more + d);
      assert [b] + (more + d) == ([b] + more) + d;
      assert [b] + more == bs;
    } else {
      assert Percent(bs) + rest == rest;
    }
  }

  lemma PercentCons(bs: seq<int>, rest: string)
    requires |bs| > 0 && forall i :: 0 <= i < |bs| ==> IsByte(bs[i])
    ensures Percent(bs) + rest == PercentByte(bs[0]) + (Percent(bs[1..]) + rest)
  {
    var more := bs[1..];
    TailBytes(bs);
    var p := PercentByte(bs[0]);
    var q := Percent(more);
    assert Percent(bs) == p + q;
    ConcatAssoc(p, q, rest);
  }

  lemma TailBytes(bs: seq<int>)
    requires |bs| > 0 && forall i :: 0 <= i < |bs| ==> IsByte(bs[i])
    ensures forall i :: 0 <= i < |bs| - 1 ==> IsByte(bs[1..][i])
  {
    forall i | 0 <= i < |bs| - 1 ensures IsByte(bs[1..][i]) {
      assert bs[1..][i] == bs[i + 1];
    }
  }

  /** Decoding an encoded string gives back the UTF-8 bytes of the original:
      the encoding loses nothing. */
  lemma {:induction false} DecodeEncode(s: string)
    ensures PercentDecode(Encode(s)) == Utf8String(s)
    decreases |s|
  {
    if |s| > 0 {
      var c := s[0];
      DecodeEncode(s[1..]);
      if Unreserved(c) {
        var t := Encode(s);
        assert t == [c] + Encode(s[1..]);
        assert t[1..] == Encode(s[1..]);
      } else {
        DecodePercent(Utf8(c), Encode(s[1..]));
      }
    }
  }

  /** `p => 'paths=' + encodeURIComponent(p)`, then joined by `&`. */
  function PackageQuery(paths: seq<string>): string {
    Join(PackageParams(paths), '&')
  }

  function PackageParams(paths: seq<string>): (r: seq<string>)
    ensures |r| == |paths|
    ensures forall i :: 0 <= i < |paths| ==> r[i] == "paths=" + Encode(paths[i])
  {
    seq(|paths|, i requires 0 <= i < |paths| => "paths=" + Encode(paths[i]))
  }

  /** The key of one `key=value` parameter: the text before its first `=`. */
  function ParamKey(param: string): string {
    param[..FirstIndex(param, '=')]
  }

  /** The text after the first `=`; empty when there is none. */
  function ParamValue(param: string): string {
    var k := FirstIndex(param, '=');
    if k < |param| then param[k + 1..] else ""
  }

  /** `key=value` with `=` absent from `key` splits back into the two. */
  lemma ParamParts(key: string, value: string)
    requires '=' !in key
    ensures ParamKey(key + "=" + value) == key
    ensures ParamValue(key + "=" + value) == value
  {
    var p := key + "=" + value;
    assert p[|key|] == '=' && forall i :: 0 <= i < |key| ==> p[i] == key[i];
    assert FirstIndex(p, '=') == |key|;
  }

  /** The first value given for `key`, the way a query parser looks it up. */
  function QueryValue(query: string, key: string): Option<string> {
    FirstParam(Split(query, '&'), key)
  }

  function FirstParam(params: seq<string>, key: string): Option<string>
    decreases |params|
  {
    if |params| == 0 then None
    else if ParamKey(params[0]) == key then Some(ParamValue(params[0]))
    else FirstParam(params[1..], key)
  }

  /** The query for a non-empty selection splits back into one `paths=`
      parameter per selected path, in selection order, each holding the
      encoded path. */
  lemma PackageQueryParams(paths: seq<string>)
    requires |paths| > 0
    ensures Split(PackageQuery(paths), '&') == PackageParams(paths)
    ensures forall i :: 0 <= i < |paths| ==>
      ParamKey(PackageParams(paths)[i]) == "paths"
      && PercentDecode(ParamValue(PackageParams(paths)[i])) == Utf8String(paths[i])
  {
    var ps := PackageParams(paths);
    forall i | 0 <= i < |ps|
      ensures '&' !in ps[i] && ParamKey(ps[i]) == "paths"
      ensures PercentDecode(ParamValue(ps[i])) == Utf8String(paths[i])
    {
      ParamOfPath(paths[i]);
    }
    SplitJoin(ps, '&');
  }

  /** One `paths=` parameter: no `&`, key `paths`, value decoding to the path. */
  lemma ParamOfPath(p: string)
    ensures '&' !in "paths=" + Encode(p)
    ensures ParamKey("paths=" + Encode(p)) == "paths"
    ensures PercentDecode(ParamValue("paths=" + Encode(p))) == Utf8String(p)
  {
    NoAmpersand(p);
    assert "paths" + "=" + Encode(p) == "paths=" + Encode(p);
    ParamParts("paths", Encode(p));
    DecodeEncode(p);
  }

  lemma NoAmpersand(p: string)
    ensures '&' !in "paths=" + Encode(p)
  {
    var e := Encode(p);
    EncodedAlphabet(p);
    assert !Unreserved('&');
    assert '&' !in e;
    assert '&' !in "paths=";
  }

  /** A server reading the single parameter `path` finds nothing in the
      browser's package query, whatever was selected. */
  lemma PackageQueryHasNoPath(paths: seq<string>)
    requires |paths| > 0
    ensures QueryValue(PackageQuery(paths), "path") == None
  {
    PackageQueryParams(paths);
    NoPathParam(PackageParams(paths));
  }

  lemma {:induction false} NoPathParam(params: seq<string>)
    requires forall i :: 0 <= i < |params| ==> ParamKey(params[i]) == "paths"
    ensures FirstParam(params, "path") == None
    decreases |params|
  {
    if |params| > 0 {
      NoPathParam(params[1..]);
    }
  }
}
