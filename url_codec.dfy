/**
 * Percent-encoding as the gallery uses it: ECMAScript `encodeURIComponent`
 * (section 2.1 of RFC 3986 with the unescaped set `A-Z a-z 0-9 - _ . ! ~ * ' ( )`,
 * other characters as the `%XX` escapes of their UTF-8 bytes), and the
 * `application/x-www-form-urlencoded` serializer and parser of section 5 of the
 * WHATWG URL Standard behind `URLSearchParams`.
 */
module UrlCodec {
  import opened JsText

  // ---------------------------------------------------------------------------
  // characters, bytes and escapes
  // ---------------------------------------------------------------------------

  predicate IsAsciiAlphanumeric(c: char)
  {
    '0' <= c <= '9' || 'A' <= c <= 'Z' || 'a' <= c <= 'z'
  }

  predicate IsHexChar(c: char)
  {
    '0' <= c <= '9' || 'A' <= c <= 'F' || 'a' <= c <= 'f'
  }

  function HexValue(c: char): (v: nat)
    requires IsHexChar(c)
    ensures v < 16
  {
    if '0' <= c <= '9' then c as int - '0' as int
    else if 'A' <= c <= 'F' then c as int - 'A' as int + 10
    else c as int - 'a' as int + 10
  }

  /** The upper-case hex digit for a value below 16. */
  function HexDigit(d: nat): (c: char)
    requires d < 16
    ensures IsHexChar(c) && HexValue(c) == d
  {
    if d < 10 then ('0' as int + d) as char else ('A' as int + d - 10) as char
  }

  predicate IsAscii(s: string)
  {
    forall i :: 0 <= i < |s| ==> s[i] as int < 0x80
  }

  /** The UTF-8 encoding of one Unicode scalar value. */
  function Utf8(c: char): (bytes: seq<nat>)
    ensures 1 <= |bytes| <= 4
    ensures forall i :: 0 <= i < |bytes| ==> bytes[i] < 0x100
    ensures |bytes| == 1 <==> c as int < 0x80
    ensures c as int < 0x80 ==> bytes[0] == c as int
  {
    var cp := c as int;
    if cp < 0x80 then [cp]
    else if cp < 0x800 then [0xC0 + cp / 0x40, 0x80 + cp % 0x40]
    else if cp < 0x1_0000 then [0xE0 + cp / 0x1000, 0x80 + (cp / 0x40) % 0x40, 0x80 + cp % 0x40]
    else [0xF0 + cp / 0x4_0000, 0x80 + (cp / 0x1000) % 0x40, 0x80 + (cp / 0x40) % 0x40, 0x80 + cp % 0x40]
  }

  /** `%XY`, upper-case hex, for one byte. */
  function PercentByte(b: nat): (r: string)
    requires b < 0x100
    ensures |r| == 3 && r[0] == '%' && IsHexChar(r[1]) && IsHexChar(r[2])
    ensures HexValue(r[1]) * 16 + HexValue(r[2]) == b
  {
    ['%', HexDigit(b / 16), HexDigit(b % 16)]
  }

  /** The escapes of a character's UTF-8 bytes, one after the other. */
  function PercentEncodeChar(c: char): string
  {
    var bytes := Utf8(c);
    PercentBytes(bytes)
  }

  function PercentBytes(bytes: seq<nat>): (r: string)
    requires forall i :: 0 <= i < |bytes| ==> bytes[i] < 0x100
    ensures |r| == 3 * |bytes|
    ensures forall i :: 0 <= i < |r| ==> r[i] == '%' || IsHexChar(r[i])
  {
    if |bytes| == 0 then "" else PercentByte(bytes[0]) + PercentBytes(bytes[1..])
  }

  /** Applies a per-character encoder to every character and concatenates the results. */
  function FlatMap(f: char -> string, s: string): string
  {
    if |s| == 0 then "" else f(s[0]) + FlatMap(f, s[1..])
  }

  lemma {:induction false} FlatMapAppend(f: char -> string, a: string, b: string)
    ensures FlatMap(f, a + b) == FlatMap(f, a) + FlatMap(f, b)
    decreases |a|
  {
    if |a| > 0 {
      assert (a + b)[0] == a[0] && (a + b)[1..] == a[1..] + b;
      FlatMapAppend(f, a[1..], b);
    } else {
      assert a + b == b;
    }
  }

  // ---------------------------------------------------------------------------
  // encodeURIComponent
  // ---------------------------------------------------------------------------

  /** The characters `encodeURIComponent` leaves as they are. */
  predicate IsUriUnreserved(c: char)
  {
    IsAsciiAlphanumeric(c) || c in "-_.!~*'()"
  }

  function EncodeUriChar(c: char): string
  {
    if IsUriUnreserved(c) then [c] else PercentEncodeChar(c)
  }

  /** `encodeURIComponent(s)`: only unreserved characters and escapes remain. */
  function EncodeUriComponent(s: string): (r: string)
    ensures forall i :: 0 <= i < |r| ==> IsUriUnreserved(r[i]) || r[i] == '%'
  {
    EncodeUriComponentSafe(s);
    FlatMap(EncodeUriChar, s)
  }

  /** `encodeURIComponent` works character by character from the front. */
  lemma UriComponentCons(c: char, s: string)
    ensures EncodeUriComponent([c] + s) == EncodeUriChar(c) + EncodeUriComponent(s)
  {
    var t := [c] + s;
    assert t[0] == c && t[1..] == s;
  }

  lemma {:induction false} EncodeUriComponentSafe(s: string)
    ensures forall i :: 0 <= i < |FlatMap(EncodeUriChar, s)| ==>
      IsUriUnreserved(FlatMap(EncodeUriChar, s)[i]) || FlatMap(EncodeUriChar, s)[i] == '%'
    decreases |s|
  {
    if |s| > 0 {
      EncodeUriComponentSafe(s[1..]);
      var head := EncodeUriChar(s[0]);
      assert forall i :: 0 <= i < |head| ==> IsUriUnreserved(head[i]) || head[i] == '%';
    }
  }

  // ---------------------------------------------------------------------------
  // application/x-www-form-urlencoded (URLSearchParams)
  // ---------------------------------------------------------------------------

  /** Characters the urlencoded serializer leaves as they are. */
  predicate IsFormPlain(c: char)
  {
    IsAsciiAlphanumeric(c) || c in "*-._"
  }

  function FormEncodeChar(c: char): string
  {
    if IsFormPlain(c) then [c] else if c == ' ' then "+" else PercentEncodeChar(c)
  }

  /** The urlencoded serialization of one name or value. */
  function FormEncode(s: string): (r: string)
    ensures '&' !in r && '=' !in r
  {
    FormEncodeNoDelimiters(s);
    FlatMap(FormEncodeChar, s)
  }

  lemma {:induction false} FormEncodeNoDelimiters(s: string)
    ensures '&' !in FlatMap(FormEncodeChar, s) && '=' !in FlatMap(FormEncodeChar, s)
    decreases |s|
  {
    if |s| > 0 {
      FormEncodeNoDelimiters(s[1..]);
      var head := FormEncodeChar(s[0]);
      assert '&' !in head && '=' !in head;
    }
  }

  /** `name=value` pairs joined by `&`: `URLSearchParams.prototype.toString`. */
  function Serialize(pairs: seq<(string, string)>): string
  {
    Join(SerializedPairs(pairs), '&')
  }

  function SerializePair(p: (string, string)): (r: string)
    ensures '&' !in r
  {
    FormEncode(p.0) + "=" + FormEncode(p.1)
  }

  function SerializedPairs(pairs: seq<(string, string)>): (r: seq<string>)
    ensures |r| == |pairs|
    ensures forall i :: 0 <= i < |r| ==> r[i] == SerializePair(pairs[i])
  {
    seq(|pairs|, i requires 0 <= i < |pairs| => SerializePair(pairs[i]))
  }

  function ReplacePlus(s: string): string
  {
    seq(|s|, i requires 0 <= i < |s| => if s[i] == '+' then ' ' else s[i])
  }

  /**
   * Percent-decoding: `%` and two hex digits become the character whose code is
   * that byte; anything else is kept.
   */
  function PercentDecode(s: string): string
    decreases |s|
  {
    if |s| == 0 then ""
    else if |s| >= 3 && s[0] == '%' && IsHexChar(s[1]) && IsHexChar(s[2]) then
      [(HexValue(s[1]) * 16 + HexValue(s[2])) as char] + PercentDecode(s[3..])
    else [s[0]] + PercentDecode(s[1..])
  }

  /** The urlencoded parser's decoding of a name or value: `+` to space, then escapes. */
  function FormDecode(s: string): string
  {
    PercentDecode(ReplacePlus(s))
  }

  /** One `&`-piece: up to the first `=` is the name, the rest the value. */
  function ParsePair(piece: string): (string, string)
  {
    var parts := Split(piece, '=');
    (FormDecode(parts[0]), FormDecode(Join(parts[1..], '=')))
  }

  /** `new URLSearchParams(query)`: the name/value list, empty pieces skipped. */
  function ParseQuery(query: string): seq<(string, string)>
  {
    ParsePieces(Split(query, '&'))
  }

  function ParsePieces(pieces: seq<string>): seq<(string, string)>
  {
    if |pieces| == 0 then []
    else if pieces[0] == "" then ParsePieces(pieces[1..])
    else [ParsePair(pieces[0])] + ParsePieces(pieces[1..])
  }

  /** `searchParams.get(name)`: the value of the first pair with that name. */
  function Get(pairs: seq<(string, string)>, name: string): (r: Option<string>)
    ensures r.Some? <==> exists i :: 0 <= i < |pairs| && pairs[i].0 == name
    ensures r.Some? ==> exists i :: 0 <= i < |pairs| && pairs[i] == (name, r.value)
                                  && forall j :: 0 <= j < i ==> pairs[j].0 != name
  {
    if |pairs| == 0 then None
    else if pairs[0].0 == name then Some(pairs[0].1)
    else
      var r := Get(pairs[1..], name);
      assert forall i :: 1 <= i < |pairs| ==> pairs[i] == pairs[1..][i - 1];
      r
  }

  /** Pairs with other names before the first match are skipped by the lookup. */
  lemma {:induction false} GetSkips(a: seq<(string, string)>, b: seq<(string, string)>, name: string)
    requires forall i :: 0 <= i < |a| ==> a[i].0 != name
    ensures Get(a + b, name) == Get(b, name)
    decreases |a|
  {
    if |a| > 0 {
      assert (a + b)[0] == a[0] && (a + b)[1..] == a[1..] + b;
      GetSkips(a[1..], b, name);
    } else {
      assert a + b == b;
    }
  }

  /** The query of a request path: what follows its first `?`, or nothing. */
  function QueryOf(url: string): string
  {
    var parts := Split(url, '?');
    Join(parts[1..], '?')
  }

  // ---------------------------------------------------------------------------
  // round trips
  // ---------------------------------------------------------------------------

  /** A single decoded unit followed by anything decodes to its character followed by the rest. */
  lemma PercentDecodeEscape(c: char, rest: string)
    requires c as int < 0x80
    ensures PercentDecode(PercentEncodeChar(c) + rest) == [c] + PercentDecode(rest)
  {
    var e := PercentEncodeChar(c);
    assert e == PercentByte(c as int);
    assert (e + rest)[3..] == rest;
  }

  lemma PercentDecodeLiteral(c: char, rest: string)
    requires c != '%'
    ensures PercentDecode([c] + rest) == [c] + PercentDecode(rest)
  {
    assert ([c] + rest)[1..] == rest;
  }

  lemma {:induction false} ReplacePlusAppend(a: string, b: string)
    ensures ReplacePlus(a + b) == ReplacePlus(a) + ReplacePlus(b)
  {
  }

  lemma ReplacePlusNoPlus(a: string)
    requires '+' !in a
    ensures ReplacePlus(a) == a
  {
  }

  /** Every ASCII string survives urlencoded serialization and parsing. */
  lemma {:induction false} FormRoundTrip(s: string)
    requires IsAscii(s)
    ensures FormDecode(FormEncode(s)) == s
    decreases |s|
  {
    if |s| > 0 {
      var c := s[0];
      var head := FormEncodeChar(c);
      var tail := FlatMap(FormEncodeChar, s[1..]);
      assert FormEncode(s) == head + tail;
      ReplacePlusAppend(head, tail);
      FormRoundTrip(s[1..]);
      assert s == [c] + s[1..];
      if IsFormPlain(c) {
        PercentDecodeLiteral(c, ReplacePlus(tail));
      } else if c == ' ' {
        assert ReplacePlus(head) == " ";
        PercentDecodeLiteral(' ', ReplacePlus(tail));
      } else {
        ReplacePlusNoPlus(head);
        PercentDecodeEscape(c, ReplacePlus(tail));
      }
    }
  }

  /**
   * An ASCII character's `encodeURIComponent` form holds none of `+`, `&`, `=`
   * and percent-decodes back to the character, whatever follows it.
   */
  lemma UriCharDecodes(c: char, rest: string)
    requires c as int < 0x80
    ensures '+' !in EncodeUriChar(c) && '&' !in EncodeUriChar(c) && '=' !in EncodeUriChar(c)
    ensures PercentDecode(EncodeUriChar(c) + rest) == [c] + PercentDecode(rest)
  {
    if IsUriUnreserved(c) {
      PercentDecodeLiteral(c, rest);
    } else {
      assert PercentEncodeChar(c) == PercentByte(c as int);
      PercentDecodeEscape(c, rest);
    }
  }

  /** `encodeURIComponent` of ASCII text holds none of `+`, `&`, `=` and percent-decodes back to the text. */
  lemma {:induction false} UriCharsDecode(s: string)
    requires IsAscii(s)
    ensures var e := FlatMap(EncodeUriChar, s);
            '+' !in e && '&' !in e && '=' !in e && PercentDecode(e) == s
    decreases |s|
  {
    if |s| > 0 {
      var head, tail := EncodeUriChar(s[0]), FlatMap(EncodeUriChar, s[1..]);
      UriCharsDecode(s[1..]);
      UriCharDecodes(s[0], tail);
      assert FlatMap(EncodeUriChar, s) == head + tail;
      assert s == [s[0]] + s[1..];
    }
  }

  /** Every ASCII string survives `encodeURIComponent` followed by urlencoded parsing. */
  lemma UriComponentRoundTrip(s: string)
    requires IsAscii(s)
    ensures FormDecode(EncodeUriComponent(s)) == s
  {
    UriCharsDecode(s);
    ReplacePlusNoPlus(EncodeUriComponent(s));
  }

  lemma ParsePieceOfPair(p: (string, string))
    requires IsAscii(p.0) && IsAscii(p.1)
    ensures SerializePair(p) != "" && ParsePair(SerializePair(p)) == p
  {
    var n, v := FormEncode(p.0), FormEncode(p.1);
    SplitFreePrefix(n, "=" + v, '=');
    assert n + "=" + v == n + ("=" + v);
    SplitSingle(v, '=');
    assert ("=" + v)[1..] == v;
    assert Split("=" + v, '=') == [""] + Split(v, '=');
    assert n + "" == n;
    FormRoundTrip(p.0);
    FormRoundTrip(p.1);
    JoinSplit(v, '=');
  }

  lemma {:induction false} ParsePiecesSerialized(pairs: seq<(string, string)>)
    requires forall i :: 0 <= i < |pairs| ==> IsAscii(pairs[i].0) && IsAscii(pairs[i].1)
    ensures ParsePieces(SerializedPairs(pairs)) == pairs
    decreases |pairs|
  {
    if |pairs| > 0 {
      ParsePieceOfPair(pairs[0]);
      ParsePiecesSerialized(pairs[1..]);
      assert SerializedPairs(pairs)[1..] == SerializedPairs(pairs[1..]);
    }
  }

  /** Text made only of characters the serializer leaves alone. */
  predicate IsFormPlainText(s: string)
  {
    forall i :: 0 <= i < |s| ==> IsFormPlain(s[i])
  }

  /** Plain text decodes to itself: it holds no `+` and no `%`. */
  lemma {:induction false} PlainTextDecodes(s: string)
    requires IsFormPlainText(s)
    ensures FormDecode(s) == s
    decreases |s|
  {
    assert '+' !in s by {
      assert forall i :: 0 <= i < |s| ==> s[i] != '+';
    }
    ReplacePlusNoPlus(s);
    if |s| > 0 {
      PlainTextDecodes(s[1..]);
      ReplacePlusNoPlus(s[1..]);
      assert s[0] != '%';
      PercentDecodeLiteral(s[0], s[1..]);
      assert s == [s[0]] + s[1..];
    }
  }

  /** The serializer leaves plain text as it is. */
  lemma {:induction false} PlainTextEncodes(s: string)
    requires IsFormPlainText(s)
    ensures FormEncode(s) == s
    decreases |s|
  {
    if |s| > 0 {
      PlainTextEncodes(s[1..]);
      assert FlatMap(FormEncodeChar, s) == [s[0]] + FlatMap(FormEncodeChar, s[1..]);
      assert s == [s[0]] + s[1..];
    }
  }

  /** `URLSearchParams` parsing undoes its serialization for ASCII names and values. */
  lemma QueryRoundTrip(pairs: seq<(string, string)>)
    requires forall i :: 0 <= i < |pairs| ==> IsAscii(pairs[i].0) && IsAscii(pairs[i].1)
    ensures ParseQuery(Serialize(pairs)) == pairs
  {
    var pieces := SerializedPairs(pairs);
    if |pairs| == 0 {
      assert Split("", '&') == [""];
    } else {
      SplitJoin(pieces, '&');
      ParsePiecesSerialized(pairs);
    }
  }

  /** The query of `path + "?" + query` is `query` when the path has no `?`. */
  lemma QueryOfPath(path: string, query: string)
    requires '?' !in path
    ensures QueryOf(path + "?" + query) == query
  {
    SplitFreePrefix(path, "?" + query, '?');
    assert path + "?" + query == path + ("?" + query);
    assert ("?" + query)[1..] == query;
    assert Split("?" + query, '?') == [""] + Split(query, '?');
    JoinSplit(query, '?');
  }

  lemma QueryOfPlainPath(path: string)
    requires '?' !in path
    ensures QueryOf(path) == ""
  {
    SplitSingle(path, '?');
  }
}
