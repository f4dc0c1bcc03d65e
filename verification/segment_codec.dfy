/**
 * The segment codec of the hashbang router: `_encode` is JavaScript's `encodeURIComponent` and
 * `_decode` is `decodeURIComponent` with every failure turned into the empty string.
 *
 * A character is kept as it is when it is one of the unreserved characters of
 * `encodeURIComponent`; any other character is written as the percent-encoded octets
 * (section 2.1 of RFC 3986) of its UTF-8 form (section 3 of RFC 3629), with upper-case hex digits.
 * Decoding reverses that and fails on a malformed escape or an invalid UTF-8 sequence.
 */
module SegmentCodec {
  import opened Wrappers

  type Octet = b: int | 0 <= b < 256

  /** The characters `encodeURIComponent` leaves alone: ASCII letters and digits and `- _ . ! ~ * ' ( )`. */
  predicate Unreserved(c: char) {
    ('A' <= c <= 'Z') || ('a' <= c <= 'z') || ('0' <= c <= '9')
    || c == '-' || c == '_' || c == '.' || c == '!' || c == '~' || c == '*' || c == '\'' || c == '(' || c == ')'
  }

  predicate IsHexDigit(c: char) {
    ('0' <= c <= '9') || ('A' <= c <= 'F') || ('a' <= c <= 'f')
  }

  /** The value of a hex digit, in either case. */
  function HexValue(c: char): (v: nat)
    requires IsHexDigit(c)
    ensures v < 16
  {
    if '0' <= c <= '9' then c as int - '0' as int
    else if 'A' <= c <= 'F' then c as int - 'A' as int + 10
    else c as int - 'a' as int + 10
  }

  /** The upper-case hex digit `encodeURIComponent` writes for `v`. */
  function HexDigit(v: nat): (c: char)
    requires v < 16
    ensures IsHexDigit(c) && HexValue(c) == v
  {
    if v < 10 then ('0' as int + v) as char else ('A' as int + v - 10) as char
  }

  /** A percent-encoded octet: `%` and two hex digits. */
  function Escape(b: Octet): (s: string)
    ensures |s| == 3 && s[0] == '%'
  {
    ['%', HexDigit(b / 16), HexDigit(b % 16)]
  }

  function EscapeAll(bs: seq<Octet>): (s: string)
    ensures |s| == 3 * |bs|
    decreases |bs|
  {
    if bs == [] then "" else Escape(bs[0]) + EscapeAll(bs[1..])
  }

  /** A Unicode scalar value: a code point that is not a surrogate. */
  predicate IsScalar(cp: int) {
    0 <= cp <= 0x10FFFF && !(0xD800 <= cp <= 0xDFFF)
  }

  /** The UTF-8 form of a code point (section 3 of RFC 3629). */
  function Utf8(cp: nat): (bs: seq<Octet>)
    requires cp <= 0x10FFFF
    ensures 1 <= |bs| <= 4
  {
    if cp < 0x80 then [cp]
    else if cp < 0x800 then [0xC0 + cp / 64, 0x80 + cp % 64]
    else if cp < 0x10000 then [0xE0 + cp / 4096, 0x80 + (cp / 64) % 64, 0x80 + cp % 64]
    else [0xF0 + cp / 262144, 0x80 + (cp / 4096) % 64, 0x80 + (cp / 64) % 64, 0x80 + cp % 64]
  }

  /** `encodeURIComponent` of one character. */
  function EncodeChar(c: char): string {
    if Unreserved(c) then [c] else EscapeAll(Utf8(c as int))
  }

  /** `_encode`: `encodeURIComponent` of a whole segment. */
  function Encode(s: string): (r: string)
    ensures |r| >= |s|
    decreases |s|
  {
    if s == [] then "" else EncodeChar(s[0]) + Encode(s[1..])
  }

  /** The octet written as `%HH` at the start of `s`, if there is one. */
  function OctetAt(s: string): (r: Option<Octet>)
    ensures r.Some? ==> |s| >= 3 && s[0] == '%'
  {
    if |s| >= 3 && s[0] == '%' && IsHexDigit(s[1]) && IsHexDigit(s[2])
    then Some(HexValue(s[1]) * 16 + HexValue(s[2]))
    else None
  }

  /** `n` consecutive percent-encoded octets at the start of `s`. */
  function OctetsAt(s: string, n: nat): (r: Option<seq<Octet>>)
    ensures r.Some? ==> |r.value| == n && |s| >= 3 * n
    decreases n
  {
    if n == 0 then Some([])
    else match OctetAt(s)
      case None => None
      case Some(b) =>
        match OctetsAt(s[3..], n - 1)
        case None => None
        case Some(bs) => Some([b] + bs)
  }

  /** The number of leading one bits of the first octet of a UTF-8 sequence (5 stands for "5 or more"). */
  function LeadingOnes(b: Octet): nat {
    if b < 0x80 then 0
    else if b < 0xC0 then 1
    else if b < 0xE0 then 2
    else if b < 0xF0 then 3
    else if b < 0xF8 then 4
    else 5
  }

  /** The code point a multi-octet UTF-8 sequence spells, read off its payload bits. */
  function CodePoint(bs: seq<Octet>): int
    requires 2 <= |bs| <= 4
  {
    var b: seq<int> := bs;
    if |b| == 2 then (b[0] % 32) * 64 + (b[1] - 0x80)
    else if |b| == 3 then (b[0] % 16) * 4096 + (b[1] - 0x80) * 64 + (b[2] - 0x80)
    else (b[0] % 8) * 262144 + (b[1] - 0x80) * 4096 + (b[2] - 0x80) * 64 + (b[3] - 0x80)
  }

  function Cons(c: char, r: Option<string>): Option<string> {
    match r
    case None => None
    case Some(t) => Some([c] + t)
  }

  /**
   * `decodeURIComponent`: `None` where JavaScript throws a URIError, that is on a `%` not followed
   * by two hex digits, on a lone continuation octet or an octet announcing more than four, on
   * missing or malformed continuation escapes, and on octets that are not the shortest UTF-8 form
   * of a scalar value.
   */
  function Decode(s: string): (r: Option<string>)
    decreases |s|
  {
    if s == [] then Some([])
    else if s[0] != '%' then Cons(s[0], Decode(s[1..]))
    else match OctetAt(s)
      case None => None
      case Some(b) =>
        if b < 0x80 then Cons(b as char, Decode(s[3..]))
        else
          var n := LeadingOnes(b);
          if n == 1 || n > 4 then None
          else match OctetsAt(s, n)
            case None => None
            case Some(bs) =>
              var cp := CodePoint(bs);
              if IsScalar(cp) && Utf8(cp) == bs then Cons(cp as char, Decode(s[3 * n..])) else None
  }

  /** `_decode`: a failed decode becomes the empty string. */
  function DecodeLenient(s: string): string {
    Decode(s).GetOr("")
  }

  // ---------------------------------------------------------------------------------------------
  // Properties of the codec

  /** What `_encode` writes is made of unreserved characters, `%` and hex digits only. */
  predicate EncodedChar(c: char) {
    Unreserved(c) || c == '%' || IsHexDigit(c)
  }

  lemma {:induction false} EscapeAllChars(bs: seq<Octet>)
    ensures forall i :: 0 <= i < |EscapeAll(bs)| ==> EncodedChar(EscapeAll(bs)[i])
    decreases |bs|
  {
    if bs != [] {
      EscapeAllChars(bs[1..]);
    }
  }

  /**
   * Every character of an encoded segment is unreserved, `%` or a hex digit; in particular an
   * encoded segment holds no `/`, `?`, `#` and no line terminator.
   */
  lemma {:induction false} EncodeChars(s: string)
    ensures forall i :: 0 <= i < |Encode(s)| ==> EncodedChar(Encode(s)[i])
    ensures '/' !in Encode(s) && '?' !in Encode(s) && '#' !in Encode(s)
    decreases |s|
  {
    if s != [] {
      EncodeChars(s[1..]);
      EncodeCharChars(s[0]);
      assert Encode(s) == EncodeChar(s[0]) + Encode(s[1..]);
      EncodedConcat(EncodeChar(s[0]), Encode(s[1..]));
    }
    EncodedNoDelimiters(Encode(s));
  }

  lemma EncodeCharChars(c: char)
    ensures forall i :: 0 <= i < |EncodeChar(c)| ==> EncodedChar(EncodeChar(c)[i])
  {
    if !Unreserved(c) {
      EscapeAllChars(Utf8(c as int));
    }
  }

  lemma EncodedConcat(a: string, b: string)
    requires forall i :: 0 <= i < |a| ==> EncodedChar(a[i])
    requires forall i :: 0 <= i < |b| ==> EncodedChar(b[i])
    ensures forall i :: 0 <= i < |a + b| ==> EncodedChar((a + b)[i])
  {
    forall i | 0 <= i < |a + b| ensures EncodedChar((a + b)[i]) {
      if i >= |a| {
        assert (a + b)[i] == b[i - |a|];
      }
    }
  }

  lemma EncodedNoDelimiters(e: string)
    requires forall i :: 0 <= i < |e| ==> EncodedChar(e[i])
    ensures '/' !in e && '?' !in e && '#' !in e
  {
    forall i | 0 <= i < |e| ensures e[i] != '/' && e[i] != '?' && e[i] != '#' {
      assert EncodedChar(e[i]);
    }
  }

  /** Encoding keeps the empty segment empty and every other segment non-empty. */
  lemma EncodeEmpty(s: string)
    ensures Encode(s) == "" <==> s == ""
  {
  }

  /** Decoding text without `%` changes nothing. */
  lemma {:induction false} DecodeNoPercent(s: string)
    requires '%' !in s
    ensures Decode(s) == Some(s)
    decreases |s|
  {
    if s != [] {
      DecodeNoPercent(s[1..]);
      assert [s[0]] + s[1..] == s;
    }
  }

  lemma HexRoundTrip(b: Octet)
    ensures OctetAt(Escape(b)) == Some(b)
  {
    assert HexValue(HexDigit(b / 16)) * 16 + HexValue(HexDigit(b % 16)) == b;
  }

  lemma {:induction false} OctetsRoundTrip(bs: seq<Octet>, rest: string)
    ensures OctetsAt(EscapeAll(bs) + rest, |bs|) == Some(bs)
    decreases |bs|
  {
    if bs != [] {
      var tail := EscapeAll(bs[1..]) + rest;
      assert EscapeAll(bs) + rest == Escape(bs[0]) + tail;
      OctetsRoundTrip(bs[1..], rest);
      OctetsStep(bs[0], tail, bs[1..]);
      assert [bs[0]] + bs[1..] == bs;
    }
  }

  /** One more escaped octet in front reads back as one more octet. */
  lemma OctetsStep(b: Octet, tail: string, bs: seq<Octet>)
    requires OctetsAt(tail, |bs|) == Some(bs)
    ensures OctetsAt(Escape(b) + tail, |bs| + 1) == Some([b] + bs)
  {
    OctetAtFront(Escape(b), tail);
    HexRoundTrip(b);
  }

  /** The octet at the start of a text depends on its first three characters only. */
  lemma OctetAtFront(e: string, tail: string)
    requires |e| == 3
    ensures OctetAt(e + tail) == OctetAt(e) && (e + tail)[3..] == tail
  {
    var s := e + tail;
    assert s[0] == e[0] && s[1] == e[1] && s[2] == e[2];
  }

  /** The UTF-8 form of a code point beyond ASCII announces its own length and spells the code point. */
  lemma Utf8Spells(cp: nat)
    requires 0x80 <= cp <= 0x10FFFF
    ensures LeadingOnes(Utf8(cp)[0]) == |Utf8(cp)|
    ensures CodePoint(Utf8(cp)) == cp
  {
    if cp < 0x800 {
      Utf8Spells2(cp);
    } else if cp < 0x10000 {
      Utf8Spells3(cp);
    } else {
      Utf8Spells4(cp);
    }
  }

  lemma Utf8Spells2(cp: nat)
    requires 0x80 <= cp < 0x800
    ensures LeadingOnes(Utf8(cp)[0]) == 2 && |Utf8(cp)| == 2
    ensures CodePoint(Utf8(cp)) == cp
  {
    assert cp == (cp / 64) * 64 + cp % 64;
  }

  lemma Utf8Spells3(cp: nat)
    requires 0x800 <= cp < 0x10000
    ensures LeadingOnes(Utf8(cp)[0]) == 3 && |Utf8(cp)| == 3
    ensures CodePoint(Utf8(cp)) == cp
  {
    var a, b, c := cp / 4096, (cp / 64) % 64, cp % 64;
    assert cp / 64 == a * 64 + b;
    assert cp == (cp / 64) * 64 + c;
  }

  lemma Utf8Spells4(cp: nat)
    requires 0x10000 <= cp <= 0x10FFFF
    ensures LeadingOnes(Utf8(cp)[0]) == 4 && |Utf8(cp)| == 4
    ensures CodePoint(Utf8(cp)) == cp
  {
    var a, b, c, d := cp / 262144, (cp / 4096) % 64, (cp / 64) % 64, cp % 64;
    assert cp / 4096 == a * 64 + b;
    assert cp / 64 == (cp / 4096) * 64 + c;
    assert cp == (cp / 64) * 64 + d;
  }

  lemma DecodeEncodeChar(c: char, rest: string)
    ensures Decode(EncodeChar(c) + rest) == Cons(c, Decode(rest))
  {
    var s := EncodeChar(c) + rest;
    if Unreserved(c) {
      assert s[0] == c && s[1..] == rest;
    } else if (c as int) < 0x80 {
      DecodeEscapedAscii(c, rest);
    } else {
      DecodeEscapedMulti(c, rest);
    }
  }

  lemma DecodeEscapedAscii(c: char, rest: string)
    requires !Unreserved(c) && (c as int) < 0x80
    ensures Decode(EncodeChar(c) + rest) == Cons(c, Decode(rest))
  {
    var s := EncodeChar(c) + rest;
    var b: Octet := c as int;
    assert Utf8(b) == [b];
    assert s == Escape(b) + rest;
    HexRoundTrip(b);
    assert OctetAt(s) == Some(b);
    assert s[3..] == rest;
  }

  lemma DecodeEscapedMulti(c: char, rest: string)
    requires 0x80 <= (c as int)
    ensures Decode(EncodeChar(c) + rest) == Cons(c, Decode(rest))
  {
    var cp := c as int;
    var bs := Utf8(cp);
    var s := EscapeAll(bs) + rest;
    assert EncodeChar(c) + rest == s;
    OctetsRoundTrip(bs, rest);
    assert OctetAt(s) == Some(bs[0]);
    Utf8Spells(cp);
    assert s[3 * |bs|..] == rest;
    assert (CodePoint(bs) as char) == c;
  }

  /** `decodeURIComponent` undoes `encodeURIComponent`, for every segment. */
  lemma {:induction false} DecodeEncode(s: string)
    ensures Decode(Encode(s)) == Some(s)
    decreases |s|
  {
    if s != [] {
      DecodeEncode(s[1..]);
      DecodeEncodeChar(s[0], Encode(s[1..]));
      assert [s[0]] + s[1..] == s;
    }
  }

  /** A malformed escape makes `_decode` return the empty string: `%` at the end, `%G0`, a lone `%80`. */
  lemma DecodeFailures()
    ensures DecodeLenient("100%") == ""
    ensures DecodeLenient("%G0") == ""
    ensures DecodeLenient("a%80") == ""
  {
    assert Decode("%") == None;
    assert Decode("%G0") == None;
    assert Decode("%80") == None;
    assert Decode("a%80") == None;
  }

  /** A `%` at index `i` of `s` that is not followed by two hex digits. */
  predicate BadEscapeAt(s: string, i: int)
    requires 0 <= i < |s|
  {
    s[i] == '%' && !(i + 2 < |s| && IsHexDigit(s[i + 1]) && IsHexDigit(s[i + 2]))
  }

  /**
   * A `%` anywhere in the text that is not followed by two hex digits makes `decodeURIComponent`
   * throw, so `_decode` gives the empty string.
   */
  lemma {:induction false} DecodeBadEscape(s: string, i: int)
    requires 0 <= i < |s| && BadEscapeAt(s, i)
    ensures Decode(s) == None
    ensures DecodeLenient(s) == ""
    decreases |s|
  {
    if s[0] != '%' {
      DecodeBadEscape(s[1..], i - 1);
    } else if OctetAt(s).Some? {
      var b := OctetAt(s).value;
      if b < 0x80 {
        DecodeBadEscape(s[3..], i - 3);
      } else {
        var n := LeadingOnes(b);
        if 2 <= n <= 4 && OctetsAt(s, n).Some? {
          OctetsBeforeBadEscape(s, n, i);
          DecodeBadEscape(s[3 * n..], i - 3 * n);
        }
      }
    }
  }

  /** The escapes a run of octets reads all lie before a bad `%`. */
  lemma {:induction false} OctetsBeforeBadEscape(s: string, n: nat, i: int)
    requires OctetsAt(s, n).Some? && 0 <= i < |s| && BadEscapeAt(s, i)
    ensures 3 * n <= i
    decreases n
  {
    if n > 0 {
      assert OctetAt(s).Some?;
      OctetsBeforeBadEscape(s[3..], n - 1, i - 3);
    }
  }

  /** `decodeURIComponent('%C3%A9')` is `é`. */
  lemma DecodeTwoOctets()
    ensures DecodeLenient("%C3%A9") == "\U{00E9}"
  {
    var t := "%C3%A9";
    var u := t[3..];
    assert OctetAt(t) == Some(0xC3) && OctetAt(u) == Some(0xA9);
    assert u[3..] == "" && t[6..] == "";
    assert OctetsAt(u, 1).value == [0xA9];
    assert OctetsAt(t, 2).value == [0xC3, 0xA9];
    assert CodePoint([0xC3, 0xA9]) == 0xE9;
    assert Utf8(0xE9) == [0xC3, 0xA9] && LeadingOnes(0xC3) == 2 && IsScalar(0xE9);
    assert Decode(t[6..]) == Some([]);
    assert (0xE9 as char) == '\U{00E9}';
    assert ['\U{00E9}'] + [] == "\U{00E9}";
    assert Decode(t) == Some("\U{00E9}");
  }
}
