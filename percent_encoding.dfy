/**
 * encodeURIComponent and decodeURIComponent: percent-encoding (section 2.1 of RFC 3986)
 * of the UTF-8 octets (RFC 3629) of every character outside the unescaped set.
 * The code-block copy button stores `encodeURIComponent(code)` in its `data-code`
 * attribute and the click handler decodes it again.
 */
module PercentEncoding {
  import opened Wrappers

  type Byte = b: int | 0 <= b < 256

  /** The characters encodeURIComponent leaves as they are: A-Z a-z 0-9 - _ . ! ~ * ' ( ) */
  predicate IsUnescaped(c: char) {
    ('a' <= c <= 'z') || ('A' <= c <= 'Z') || ('0' <= c <= '9')
    || c == '-' || c == '_' || c == '.' || c == '!' || c == '~' || c == '*' || c == '\''
    || c == '(' || c == ')'
  }

  predicate IsUpperHexDigit(c: char) {
    ('0' <= c <= '9') || ('A' <= c <= 'F')
  }

  // ------------------------------------------------------------------
  // UTF-8 (RFC 3629)
  // ------------------------------------------------------------------

  /** The UTF-8 octets of a Unicode scalar value. */
  function Utf8(c: char): (bs: seq<Byte>)
    ensures 1 <= |bs| <= 4
    ensures |bs| == 1 <==> c as int < 0x80
    ensures forall i :: 1 <= i < |bs| ==> 0x80 <= bs[i] < 0xC0
  {
    var v := c as int;
    if v < 0x80 then [v]
    else if v < 0x800 then [0xC0 + v / 64, 0x80 + v % 64]
    else if v < 0x10000 then [0xE0 + v / 4096, 0x80 + (v / 64) % 64, 0x80 + v % 64]
    else [0xF0 + v / 262144, 0x80 + (v / 4096) % 64, 0x80 + (v / 64) % 64, 0x80 + v % 64]
  }

  /** The number of leading one bits of an octet, which gives the length of a UTF-8 sequence. */
  function LeadingOnes(b: Byte): nat {
    if b < 0x80 then 0
    else if b < 0xC0 then 1
    else if b < 0xE0 then 2
    else if b < 0xF0 then 3
    else if b < 0xF8 then 4
    else 5
  }

  /** The scalar value that a well-formed UTF-8 sequence of 2 to 4 octets encodes, or None. */
  function CodePoint(bs: seq<Byte>): Option<char>
    requires 2 <= |bs| <= 4 && LeadingOnes(bs[0]) == |bs|
    requires forall i :: 1 <= i < |bs| ==> 0x80 <= bs[i] < 0xC0
  {
    var b0, b1 := bs[0] as int, bs[1] as int;
    if |bs| == 2 then
      var v := (b0 - 0xC0) * 64 + (b1 - 0x80);
      if v < 0x80 then None else Some(v as char)
    else if |bs| == 3 then
      var v := (b0 - 0xE0) * 4096 + (b1 - 0x80) * 64 + (bs[2] as int - 0x80);
      if v < 0x800 || (0xD800 <= v < 0xE000) then None else Some(v as char)
    else
      var v := (b0 - 0xF0) * 262144 + (b1 - 0x80) * 4096 + (bs[2] as int - 0x80) * 64 + (bs[3] as int - 0x80);
      if v < 0x10000 || v > 0x10FFFF then None else Some(v as char)
  }

  lemma DivMod64(v: nat)
    ensures v / 4096 == (v / 64) / 64
    ensures v / 262144 == (v / 4096) / 64
    ensures v == (v / 64) * 64 + v % 64
    ensures v / 64 == (v / 4096) * 64 + (v / 64) % 64
    ensures v / 4096 == (v / 262144) * 64 + (v / 4096) % 64
  {
  }

  /** Decoding the UTF-8 octets of a character gives the character back. */
  lemma CodePointOfUtf8(c: char)
    requires c as int >= 0x80
    ensures LeadingOnes(Utf8(c)[0]) == |Utf8(c)|
    ensures CodePoint(Utf8(c)) == Some(c)
  {
    var v := c as int;
    DivMod64(v);
  }

  // ------------------------------------------------------------------
  // Hexadecimal octets
  // ------------------------------------------------------------------

  function HexDigit(d: nat): (c: char)
    requires d < 16
    ensures IsUpperHexDigit(c)
  {
    if d < 10 then ('0' as int + d) as char else ('A' as int + d - 10) as char
  }

  /** The value of a hexadecimal digit of either case. */
  function HexValue(c: char): Option<nat> {
    if '0' <= c <= '9' then Some(c as int - '0' as int)
    else if 'A' <= c <= 'F' then Some(c as int - 'A' as int + 10)
    else if 'a' <= c <= 'f' then Some(c as int - 'a' as int + 10)
    else None
  }

  lemma HexRoundTrip(d: nat)
    requires d < 16
    ensures HexValue(HexDigit(d)) == Some(d)
  {
  }

  /** "%XX" with upper-case hexadecimal digits. */
  function PercentOctet(b: Byte): string {
    ['%', HexDigit(b / 16), HexDigit(b % 16)]
  }

  function PercentOctets(bs: seq<Byte>): (r: string)
    ensures |r| == 3 * |bs|
  {
    if bs == [] then "" else PercentOctet(bs[0]) + PercentOctets(bs[1..])
  }

  /** The octet written as "%XX" at the front of `s`, if there is one. */
  function OctetAtFront(s: string): Option<Byte> {
    if |s| < 3 || s[0] != '%' then None
    else match (HexValue(s[1]), HexValue(s[2]))
      case (Some(h), Some(l)) => if h < 16 && l < 16 then Some(16 * h + l) else None
      case _ => None
  }

  // ------------------------------------------------------------------
  // encodeURIComponent
  // ------------------------------------------------------------------

  function EncodeChar(c: char): string {
    if IsUnescaped(c) then [c] else PercentOctets(Utf8(c))
  }

  /** encodeURIComponent (total: a Dafny string holds no lone surrogate). */
  function Encode(s: string): string {
    if s == [] then "" else EncodeChar(s[0]) + Encode(s[1..])
  }

  // ------------------------------------------------------------------
  // decodeURIComponent (the reserved set is empty: every escape is decoded)
  // ------------------------------------------------------------------

  /** `m` continuation octets "%XX" with XX in 80..BF at the front of `s`. */
  function Continuations(s: string, m: nat): Option<seq<Byte>>
    decreases m
  {
    if m == 0 then Some([])
    else match OctetAtFront(s)
      case None => None
      case Some(b) =>
        if b < 0x80 || b >= 0xC0 then None
        else match Continuations(s[3..], m - 1)
          case None => None
          case Some(rest) => Some([b] + rest)
  }

  lemma ContinuationsShape(s: string, m: nat)
    ensures Continuations(s, m).Some? ==> |s| >= 3 * m && |Continuations(s, m).value| == m
    ensures Continuations(s, m).Some? ==> forall i :: 0 <= i < m ==> 0x80 <= Continuations(s, m).value[i] < 0xC0
    decreases m
  {
    if m > 0 && OctetAtFront(s).Some? {
      ContinuationsShape(s[3..], m - 1);
    }
  }

  function Prepend(c: char, r: Option<string>): Option<string> {
    match r
    case None => None
    case Some(t) => Some([c] + t)
  }

  /** decodeURIComponent: None where JavaScript throws a URIError. */
  function Decode(s: string): Option<string>
    decreases |s|
  {
    if s == [] then Some("")
    else if s[0] != '%' then Prepend(s[0], Decode(s[1..]))
    else match OctetAtFront(s)
      case None => None
      case Some(b) =>
        var n := LeadingOnes(b);
        if n == 0 then Prepend(b as char, Decode(s[3..]))
        else if n == 1 || n > 4 then None
        else
          ContinuationsShape(s[3..], n - 1);
          match Continuations(s[3..], n - 1)
          case None => None
          case Some(tail) =>
            match CodePoint([b] + tail)
            case None => None
            case Some(c) => Prepend(c, Decode(s[3 * n..]))
  }

  // ------------------------------------------------------------------
  // Properties
  // ------------------------------------------------------------------

  lemma OctetAtFrontOfPercent(b: Byte, rest: string)
    ensures OctetAtFront(PercentOctet(b) + rest) == Some(b)
  {
    HexRoundTrip(b / 16);
    HexRoundTrip(b % 16);
  }

  lemma {:induction false} ContinuationsOfPercent(bs: seq<Byte>, rest: string)
    requires forall i :: 0 <= i < |bs| ==> 0x80 <= bs[i] < 0xC0
    ensures Continuations(PercentOctets(bs) + rest, |bs|) == Some(bs)
  {
    if bs != [] {
      var s := PercentOctets(bs) + rest;
      var tail := PercentOctets(bs[1..]) + rest;
      OctetsFront(bs, rest);
      OctetAtFrontOfPercent(bs[0], tail);
      ContinuationsOfPercent(bs[1..], rest);
      HeadTail(bs);
    }
  }

  /** The first "%XX" of an encoding, and what follows it. */
  lemma OctetsFront(bs: seq<Byte>, rest: string)
    requires bs != []
    ensures PercentOctets(bs) + rest == PercentOctet(bs[0]) + (PercentOctets(bs[1..]) + rest)
    ensures (PercentOctets(bs) + rest)[3..] == PercentOctets(bs[1..]) + rest
  {
    var x, y := PercentOctet(bs[0]), PercentOctets(bs[1..]);
    assert (x + y) + rest == x + (y + rest);
    assert (x + (y + rest))[3..] == y + rest;
  }

  lemma HeadTail<T>(xs: seq<T>)
    requires xs != []
    ensures [xs[0]] + xs[1..] == xs
  {
  }

  /** Decoding the encoding of one character consumes exactly that encoding. */
  lemma DecodeEncodeChar(c: char, rest: string)
    ensures Decode(EncodeChar(c) + rest) == Prepend(c, Decode(rest))
  {
    var s := EncodeChar(c) + rest;
    if IsUnescaped(c) {
      assert s[1..] == rest;
    } else {
      var bs := Utf8(c);
      var n := |bs|;
      OctetsFront(bs, rest);
      OctetAtFrontOfPercent(bs[0], PercentOctets(bs[1..]) + rest);
      assert s[0] == '%';
      if c as int < 0x80 {
        assert bs[1..] == [];
        assert bs[0] as char == c;
      } else {
        CodePointOfUtf8(c);
        ContinuationsOfPercent(bs[1..], rest);
        HeadTail(bs);
        DropEncoding(PercentOctets(bs), rest);
      }
    }
  }

  lemma DropEncoding(e: string, rest: string)
    ensures (e + rest)[|e|..] == rest
  {
  }

  /** The copy payload round-trips: decodeURIComponent(encodeURIComponent(s)) == s. */
  lemma {:induction false} DecodeEncode(s: string)
    ensures Decode(Encode(s)) == Some(s)
  {
    if s != [] {
      assert Encode(s) == EncodeChar(s[0]) + Encode(s[1..]);
      DecodeEncodeChar(s[0], Encode(s[1..]));
      DecodeEncode(s[1..]);
      assert [s[0]] + s[1..] == s;
    }
  }

  /** Characters that can appear in an encoding. */
  predicate IsEncodedChar(c: char) {
    IsUnescaped(c) || c == '%'
  }

  lemma {:induction false} PercentOctetsChars(bs: seq<Byte>)
    ensures forall i :: 0 <= i < |PercentOctets(bs)| ==> IsEncodedChar(PercentOctets(bs)[i])
  {
    if bs != [] {
      PercentOctetsChars(bs[1..]);
      var r := PercentOctets(bs);
      forall i | 0 <= i < |r| ensures IsEncodedChar(r[i]) {
        if i >= 3 { assert r[i] == PercentOctets(bs[1..])[i - 3]; }
      }
    }
  }

  /**
   * An encoding holds only unescaped characters and "%", so it has no '"', '<' or '&'
   * and survives unchanged inside a double-quoted HTML attribute.
   */
  lemma {:induction false} EncodeAttributeSafe(s: string)
    ensures forall i :: 0 <= i < |Encode(s)| ==> IsEncodedChar(Encode(s)[i])
  {
    if s != [] {
      EncodeAttributeSafe(s[1..]);
      var e := EncodeChar(s[0]);
      if !IsUnescaped(s[0]) { PercentOctetsChars(Utf8(s[0])); }
      EncodedJoin(e, Encode(s[1..]));
    }
  }

  lemma EncodedJoin(a: string, b: string)
    requires forall i :: 0 <= i < |a| ==> IsEncodedChar(a[i])
    requires forall i :: 0 <= i < |b| ==> IsEncodedChar(b[i])
    ensures forall i :: 0 <= i < |a + b| ==> IsEncodedChar((a + b)[i])
  {
    forall i | 0 <= i < |a + b| ensures IsEncodedChar((a + b)[i]) {
      if i >= |a| { assert (a + b)[i] == b[i - |a|]; }
    }
  }

  /** The empty string is the only string whose encoding is empty. */
  lemma EncodeEmptyIff(s: string)
    ensures Encode(s) == "" <==> s == ""
  {
    if s != [] {
      assert |EncodeChar(s[0])| >= 1;
    }
  }
}
