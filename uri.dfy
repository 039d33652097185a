/**
 * `decodeURI`, the decoder the query-string conversion applies to each key:
 * the abstract operation "Decode ( string, preserveEscapeSet )" of the URI
 * handling functions of ECMA-262, with the reserved set
 * `; / ? : @ & = + $ , #`. Strings are sequences of Unicode scalar values.
 */
module Uri {
  import opened Wrappers
  import opened Js

  /** Characters whose percent-escape `decodeURI` leaves as it is. */
  const Reserved: set<char> := {';', '/', '?', ':', '@', '&', '=', '+', '$', ',', '#'}

  /** The value of one hexadecimal digit, either case. */
  function HexValue(c: char): (r: Option<nat>)
    ensures r.Some? ==> r.value < 16
  {
    if '0' <= c <= '9' then Some(c as nat - '0' as nat)
    else if 'a' <= c <= 'f' then Some(c as nat - 'a' as nat + 10)
    else if 'A' <= c <= 'F' then Some(c as nat - 'A' as nat + 10)
    else None
  }

  /** ParseHexOctet: the byte written by the two hex digits at `k` and `k + 1`. */
  function HexOctet(s: string, k: nat): (r: Option<nat>)
    requires k + 2 <= |s|
    ensures r.Some? ==> r.value < 256
  {
    match (HexValue(s[k]), HexValue(s[k + 1]))
    case (Some(hi), Some(lo)) => Some(hi * 16 + lo)
    case _ => None
  }

  /** The number of leading 1 bits of a byte; 5 stands for "more than four". */
  function LeadingOnes(b: nat): (n: nat)
    requires b < 256
    ensures n <= 5
    ensures n == 0 <==> b < 0x80
  {
    if b < 0x80 then 0
    else if b < 0xC0 then 1
    else if b < 0xE0 then 2
    else if b < 0xF0 then 3
    else if b < 0xF8 then 4
    else 5
  }

  /** A Unicode scalar value: a code point that is not a surrogate. */
  predicate IsScalar(v: int) {
    0 <= v < 0xD800 || 0xE000 <= v < 0x11_0000
  }

  /**
   * The code point a two- to four-byte UTF-8 sequence encodes, or None when
   * the sequence is not valid UTF-8: a byte after the first that is not a
   * continuation byte, an overlong form, a surrogate or a value past U+10FFFF.
   * The first byte's leading ones have already been counted as `|bs|`.
   */
  function Utf8CodePoint(bs: seq<nat>): (r: Option<int>)
    requires 2 <= |bs| <= 4 && bs[0] < 256 && LeadingOnes(bs[0]) == |bs|
    ensures r.Some? ==> IsScalar(r.value) && r.value >= 0x80
  {
    if exists i :: 1 <= i < |bs| && !(0x80 <= bs[i] < 0xC0) then None
    else if |bs| == 2 then
      var v := (bs[0] - 0xC0) * 64 + (bs[1] - 0x80);
      if v < 0x80 then None else Some(v)
    else if |bs| == 3 then
      var v := (bs[0] - 0xE0) * 4096 + (bs[1] - 0x80) * 64 + (bs[2] - 0x80);
      if v < 0x800 || (0xD800 <= v < 0xE000) then None else Some(v)
    else
      var v := (bs[0] - 0xF0) * 262144 + (bs[1] - 0x80) * 4096 + (bs[2] - 0x80) * 64 + (bs[3] - 0x80);
      if v < 0x1_0000 || v >= 0x11_0000 then None else Some(v)
  }

  /** The `count` escapes `%XX` at the start of `t`, as bytes. */
  function EscapedBytes(t: string, count: nat): (r: Option<seq<nat>>)
    requires |t| >= 3 * count
    ensures r.Some? ==> |r.value| == count && forall i :: 0 <= i < count ==> r.value[i] < 256
    decreases count
  {
    if count == 0 then Some([])
    else if t[0] != '%' then None
    else
      match HexOctet(t, 1)
      case None => None
      case Some(x) =>
        match EscapedBytes(t[3..], count - 1)
        case None => None
        case Some(xs) => Some([x] + xs)
  }

  /** `prefix` in front of a decoded remainder; an error stays an error. */
  function Prepend(prefix: string, rest: Result<string, JsError>): Result<string, JsError> {
    match rest
    case Ok(t) => Ok(prefix + t)
    case Err(e) => Err(e)
  }

  /**
   * `decodeURI(s)`: every `%XX` escape of an ASCII character outside Reserved
   * becomes that character, an escape of a Reserved character is kept, and
   * escapes of a UTF-8 sequence become the character it encodes; a
   * malformed escape or invalid UTF-8 throws URIError.
   */
  function DecodeUri(s: string): (r: Result<string, JsError>)
    ensures r.Err? ==> r.error == URIError && '%' in s
    decreases |s|
  {
    if s == [] then Ok([])
    else if s[0] != '%' then Prepend([s[0]], DecodeUri(s[1..]))
    else if |s| < 3 then Err(URIError)
    else
      match HexOctet(s, 1)
      case None => Err(URIError)
      case Some(b) =>
        if b < 0x80 then
          var c := b as char;
          Prepend(if c in Reserved then s[..3] else [c], DecodeUri(s[3..]))
        else
          var n := LeadingOnes(b);
          if n == 1 || n > 4 || |s| < 3 * n then Err(URIError)
          else
            match EscapedBytes(s[3..], n - 1)
            case None => Err(URIError)
            case Some(more) =>
              match Utf8CodePoint([b] + more)
              case None => Err(URIError)
              case Some(v) => Prepend([v as char], DecodeUri(s[3 * n..]))
  }

  /** A string without `%` decodes to itself. */
  lemma {:induction false} DecodeWithoutEscapes(s: string)
    requires '%' !in s
    ensures DecodeUri(s) == Ok(s)
    decreases |s|
  {
    if s != [] {
      DecodeWithoutEscapes(s[1..]);
      assert [s[0]] + s[1..] == s;
    }
  }

  // ---------------------------------------------------------------------
  // A reference encoder: the inverse partner of DecodeUri.
  // ---------------------------------------------------------------------

  function HexChar(d: nat): (c: char)
    requires d < 16
    ensures HexValue(c) == Some(d)
  {
    "0123456789ABCDEF"[d]
  }

  /** `%XX` for one byte. */
  function Escape(b: nat): (e: string)
    requires b < 256
    ensures |e| == 3 && e[0] == '%' && HexOctet(e, 1) == Some(b)
  {
    ['%', HexChar(b / 16), HexChar(b % 16)]
  }

  /** The UTF-8 bytes of a scalar value: six payload bits per continuation byte. */
  function Utf8(v: int): (bs: seq<nat>)
    requires IsScalar(v)
    ensures 1 <= |bs| <= 4 && forall i :: 0 <= i < |bs| ==> bs[i] < 256
  {
    var w := v / 64;
    var u := w / 64;
    if v < 0x80 then [v]
    else if v < 0x800 then [0xC0 + w, 0x80 + v % 64]
    else if v < 0x1_0000 then [0xE0 + u, 0x80 + w % 64, 0x80 + v % 64]
    else [0xF0 + u / 64, 0x80 + u % 64, 0x80 + w % 64, 0x80 + v % 64]
  }

  function EscapeAll(bs: seq<nat>): (e: string)
    requires forall i :: 0 <= i < |bs| ==> bs[i] < 256
    ensures |e| == 3 * |bs|
  {
    if bs == [] then [] else Escape(bs[0]) + EscapeAll(bs[1..])
  }

  /** A character as `decodeURI` reads it back: Reserved characters raw, all others percent-escaped. */
  function EncodeChar(c: char): string {
    if c in Reserved then [c] else EscapeAll(Utf8(c as int))
  }

  /** Escapes every character outside Reserved as the percent-encoded UTF-8 of it. */
  function Encode(s: string): string
    decreases |s|
  {
    if s == [] then [] else EncodeChar(s[0]) + Encode(s[1..])
  }

  /** An escape followed by anything: `%`, then the byte's two hex digits, then the rest. */
  lemma EscapeHead(b: nat, rest: string)
    requires b < 256
    ensures var s := Escape(b) + rest;
      |s| >= 3 && s[0] == '%' && HexOctet(s, 1) == Some(b) && s[3..] == rest
  {
    var e := Escape(b);
    var s := e + rest;
    assert s[1] == e[1] && s[2] == e[2];
    assert s[3..] == rest;
  }

  /** The escapes EscapeAll writes are read back by EscapedBytes. */
  lemma {:induction false} EscapedBytesOfEscapeAll(bs: seq<nat>, t: string)
    requires forall i :: 0 <= i < |bs| ==> bs[i] < 256
    ensures EscapedBytes(EscapeAll(bs) + t, |bs|) == Some(bs)
    decreases |bs|
  {
    if bs != [] {
      var rest := EscapeAll(bs[1..]) + t;
      assert EscapeAll(bs) + t == Escape(bs[0]) + rest;
      EscapeHead(bs[0], rest);
      EscapedBytesOfEscapeAll(bs[1..], t);
      assert [bs[0]] + bs[1..] == bs;
    }
  }

  lemma Utf8Decodes2(v: int)
    requires 0x80 <= v < 0x800
    ensures |Utf8(v)| == 2 && LeadingOnes(Utf8(v)[0]) == 2
    ensures Utf8CodePoint(Utf8(v)) == Some(v)
  {
    var w := v / 64;
    assert v == w * 64 + v % 64;
    assert 2 <= w < 32;
  }

  lemma Utf8Decodes3(v: int)
    requires 0x800 <= v < 0x1_0000 && IsScalar(v)
    ensures |Utf8(v)| == 3 && LeadingOnes(Utf8(v)[0]) == 3
    ensures Utf8CodePoint(Utf8(v)) == Some(v)
  {
    var w := v / 64;
    var u := w / 64;
    assert v == w * 64 + v % 64;
    assert w == u * 64 + w % 64;
    assert u < 16;
  }

  lemma Utf8Decodes4(v: int)
    requires 0x1_0000 <= v < 0x11_0000
    ensures |Utf8(v)| == 4 && LeadingOnes(Utf8(v)[0]) == 4
    ensures Utf8CodePoint(Utf8(v)) == Some(v)
  {
    var w := v / 64;
    var u := w / 64;
    assert v == w * 64 + v % 64;
    assert w == u * 64 + w % 64;
    assert u == (u / 64) * 64 + u % 64;
    assert u / 64 < 5;
  }

  /** Each multi-byte sequence Utf8 produces is valid UTF-8 of its code point. */
  lemma Utf8Decodes(v: int)
    requires IsScalar(v) && v >= 0x80
    ensures |Utf8(v)| >= 2 && LeadingOnes(Utf8(v)[0]) == |Utf8(v)|
    ensures Utf8CodePoint(Utf8(v)) == Some(v)
  {
    if v < 0x800 { Utf8Decodes2(v); }
    else if v < 0x1_0000 { Utf8Decodes3(v); }
    else { Utf8Decodes4(v); }
  }

  /** Euclidean division by 64 recovers a quotient and a remainder below 64. */
  lemma DivMod64(q: nat, r: nat)
    requires r < 64
    ensures (q * 64 + r) / 64 == q && (q * 64 + r) % 64 == r
  {
  }

  lemma Utf8Canonical2(bs: seq<nat>)
    requires |bs| == 2 && 0xC0 <= bs[0] < 0xE0 && 0x80 <= bs[1] < 0xC0
    requires (bs[0] - 0xC0) * 64 + (bs[1] - 0x80) >= 0x80
    ensures Utf8((bs[0] - 0xC0) * 64 + (bs[1] - 0x80)) == bs
  {
    DivMod64(bs[0] - 0xC0, bs[1] - 0x80);
  }

  lemma Utf8Canonical3(bs: seq<nat>, v: int)
    requires |bs| == 3 && 0xE0 <= bs[0] < 0xF0 && 0x80 <= bs[1] < 0xC0 && 0x80 <= bs[2] < 0xC0
    requires v == (bs[0] - 0xE0) * 4096 + (bs[1] - 0x80) * 64 + (bs[2] - 0x80)
    requires 0x800 <= v && IsScalar(v)
    ensures Utf8(v) == bs
  {
    var w := (bs[0] - 0xE0) * 64 + (bs[1] - 0x80);
    assert v == w * 64 + (bs[2] - 0x80);
    DivMod64(w, bs[2] - 0x80);
    DivMod64(bs[0] - 0xE0, bs[1] - 0x80);
  }

  lemma Utf8Canonical4(bs: seq<nat>, v: int)
    requires |bs| == 4 && 0xF0 <= bs[0] < 0xF8
    requires 0x80 <= bs[1] < 0xC0 && 0x80 <= bs[2] < 0xC0 && 0x80 <= bs[3] < 0xC0
    requires v == (bs[0] - 0xF0) * 262144 + (bs[1] - 0x80) * 4096 + (bs[2] - 0x80) * 64 + (bs[3] - 0x80)
    requires 0x1_0000 <= v < 0x11_0000
    ensures Utf8(v) == bs
  {
    var u := (bs[0] - 0xF0) * 64 + (bs[1] - 0x80);
    var w := u * 64 + (bs[2] - 0x80);
    assert v == w * 64 + (bs[3] - 0x80);
    DivMod64(w, bs[3] - 0x80);
    DivMod64(u, bs[2] - 0x80);
    DivMod64(bs[0] - 0xF0, bs[1] - 0x80);
  }

  /**
   * Utf8CodePoint accepts only the shortest encoding: a sequence it decodes
   * is exactly the UTF-8 of the value, so no overlong form gets through.
   */
  lemma Utf8Canonical(bs: seq<nat>)
    requires 2 <= |bs| <= 4 && bs[0] < 256 && LeadingOnes(bs[0]) == |bs|
    ensures Utf8CodePoint(bs).Some? ==> bs == Utf8(Utf8CodePoint(bs).value)
  {
    var r := Utf8CodePoint(bs);
    if r.Some? {
      assert forall i :: 1 <= i < |bs| ==> 0x80 <= bs[i] < 0xC0;
      if |bs| == 2 {
        Utf8Canonical2(bs);
      } else if |bs| == 3 {
        Utf8Canonical3(bs, r.value);
      } else {
        Utf8Canonical4(bs, r.value);
      }
    }
  }

  /** An ASCII character outside Reserved, escaped, decodes to itself. */
  lemma DecodeEscapedAscii(c: char, t: string)
    requires c as int < 0x80 && c !in Reserved
    ensures DecodeUri(Escape(c as nat) + t) == Prepend([c], DecodeUri(t))
  {
    var s := Escape(c as nat) + t;
    assert s[0] == '%' && s[1] == Escape(c as nat)[1] && s[2] == Escape(c as nat)[2];
    assert HexOctet(s, 1) == Some(c as nat);
    assert s[3..] == t;
  }

  /** One unfolding of DecodeUri at an escaped multi-byte sequence. */
  lemma DecodeMultibyteAt(s: string, b: nat, more: seq<nat>, v: int, t: string)
    requires 2 <= |more| + 1 <= 4 && 0x80 <= b < 256 && LeadingOnes(b) == |more| + 1
    requires |s| >= 3 * (|more| + 1) && s[0] == '%' && HexOctet(s, 1) == Some(b)
    requires EscapedBytes(s[3..], |more|) == Some(more)
    requires Utf8CodePoint([b] + more) == Some(v)
    requires s[3 * (|more| + 1)..] == t
    ensures DecodeUri(s) == Prepend([v as char], DecodeUri(t))
  {
  }

  /** Where EscapeAll puts the first byte's escape, the others' and what follows. */
  lemma EscapeAllLayout(bs: seq<nat>, t: string)
    requires 1 <= |bs| && forall i :: 0 <= i < |bs| ==> bs[i] < 256
    ensures var s := EscapeAll(bs) + t;
      && |s| >= 3 * |bs| && s[0] == '%' && HexOctet(s, 1) == Some(bs[0])
      && s[3..] == EscapeAll(bs[1..]) + t && s[3 * |bs|..] == t
  {
    var rest := EscapeAll(bs[1..]) + t;
    assert EscapeAll(bs) + t == Escape(bs[0]) + rest;
    EscapeHead(bs[0], rest);
  }

  /** A valid escaped multi-byte UTF-8 sequence decodes to its code point. */
  lemma DecodeEscapedSequence(bs: seq<nat>, v: int, t: string)
    requires 2 <= |bs| <= 4 && forall i :: 0 <= i < |bs| ==> bs[i] < 256
    requires bs[0] >= 0x80 && LeadingOnes(bs[0]) == |bs| && Utf8CodePoint(bs) == Some(v)
    ensures DecodeUri(EscapeAll(bs) + t) == Prepend([v as char], DecodeUri(t))
  {
    var s := EscapeAll(bs) + t;
    EscapeAllLayout(bs, t);
    EscapedBytesOfEscapeAll(bs[1..], t);
    assert [bs[0]] + bs[1..] == bs;
    DecodeMultibyteAt(s, bs[0], bs[1..], v, t);
  }

  /** A non-ASCII character, written as its escaped UTF-8 bytes, decodes to itself. */
  lemma DecodeEscapedMultibyte(c: char, t: string)
    requires c as int >= 0x80
    ensures DecodeUri(EscapeAll(Utf8(c as int)) + t) == Prepend([c], DecodeUri(t))
  {
    Utf8Decodes(c as int);
    DecodeEscapedSequence(Utf8(c as int), c as int, t);
  }

  /** Decoding one encoded character, followed by anything. */
  lemma DecodeEncodedChar(c: char, t: string)
    ensures DecodeUri(EncodeChar(c) + t) == Prepend([c], DecodeUri(t))
  {
    if c in Reserved {
      var s := EncodeChar(c) + t;
      assert s[0] == c && s[1..] == t;
    } else if c as int < 0x80 {
      assert Utf8(c as int) == [c as nat];
      assert EscapeAll([c as nat]) == Escape(c as nat) + EscapeAll([]);
      DecodeEscapedAscii(c, t);
    } else {
      DecodeEscapedMultibyte(c, t);
    }
  }

  /** Round trip: `decodeURI` undoes Encode on every string. */
  lemma {:induction false} DecodeEncode(s: string)
    ensures DecodeUri(Encode(s)) == Ok(s)
    decreases |s|
  {
    if s != [] {
      DecodeEncode(s[1..]);
      DecodeEncodedChar(s[0], Encode(s[1..]));
      assert [s[0]] + s[1..] == s;
    }
  }

  /**
   * An escape of a Reserved character survives decoding exactly as written,
   * in either case of hex digits: `%26` stays `%26` and `%2f` stays `%2f`.
   */
  lemma ReservedEscapeKept(s: string, c: char)
    requires |s| >= 3 && s[0] == '%' && HexOctet(s, 1) == Some(c as nat) && c in Reserved
    ensures DecodeUri(s) == Prepend(s[..3], DecodeUri(s[3..]))
  {
  }

  /** `%` is not a hex digit. */
  lemma PercentNotHex(s: string, k: nat)
    requires k + 2 <= |s| && (s[k] == '%' || s[k + 1] == '%')
    ensures HexOctet(s, k).None?
  {
  }

  /** Escapes that would have to end on a `%` cannot all be read. */
  lemma {:induction false} EscapesEndingInPercent(t: string, count: nat)
    requires |t| == 3 * count && |t| >= 1 && t[|t| - 1] == '%'
    ensures EscapedBytes(t, count).None?
    decreases count
  {
    if t[0] == '%' {
      if count == 1 {
        PercentNotHex(t, 1);
      } else if HexOctet(t, 1).Some? {
        EscapesEndingInPercent(t[3..], count - 1);
      }
    }
  }

  /** A `%` ending a string makes decodeURI throw, whatever comes before it, e.g. on "100%" or "%41%". */
  lemma {:induction false} TrailingPercentThrows(a: string)
    ensures DecodeUri(a + "%").Err?
    decreases |a|
  {
    var s := a + "%";
    assert s[|s| - 1] == '%';
    if a != [] {
      if s[0] != '%' {
        assert s[1..] == a[1..] + "%";
        TrailingPercentThrows(a[1..]);
      } else if |s| >= 3 {
        if |s| == 3 {
          PercentNotHex(s, 1);
        } else if HexOctet(s, 1).Some? {
          var b := HexOctet(s, 1).value;
          if b < 0x80 {
            assert s[3..] == a[3..] + "%";
            TrailingPercentThrows(a[3..]);
          } else {
            var n := LeadingOnes(b);
            if !(n == 1 || n > 4 || |s| < 3 * n) {
              if |s| == 3 * n {
                EscapesEndingInPercent(s[3..], n - 1);
              } else {
                var more := EscapedBytes(s[3..], n - 1);
                if more.Some? && Utf8CodePoint([b] + more.value).Some? {
                  assert s[3 * n..] == a[3 * n..] + "%";
                  TrailingPercentThrows(a[3 * n..]);
                }
              }
            }
          }
        }
      }
    }
  }
}
