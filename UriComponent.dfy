/**
  `encodeURIComponent` (ECMAScript, section 19.2.6.5 of ECMA-262): every
  character outside the unreserved set `A-Z a-z 0-9 - _ . ! ~ * ' ( )` is
  written as the UTF-8 bytes of its code point, each as `%` and two
  upper-case hexadecimal digits. A Dafny `char` is a Unicode scalar value, so
  the lone-surrogate error case of the JavaScript function cannot arise.

  `Decode` is the inverse used to show that encoding loses nothing.
 */
module UriComponent {
  import opened Wrappers

  type Byte = b: nat | b < 256

  predicate Unreserved(c: char) {
    ('A' <= c <= 'Z') || ('a' <= c <= 'z') || ('0' <= c <= '9')
    || c == '-' || c == '_' || c == '.' || c == '!' || c == '~'
    || c == '*' || c == '\'' || c == '(' || c == ')'
  }

  predicate IsHexDigit(c: char) {
    ('0' <= c <= '9') || ('A' <= c <= 'F')
  }

  /** A character `Encode` can produce. */
  predicate EncodedChar(c: char) {
    Unreserved(c) || c == '%' || IsHexDigit(c)
  }

  function HexDigit(d: nat): (c: char)
    requires d < 16
    ensures IsHexDigit(c)
  {
    if d < 10 then (48 + d) as char else (55 + d) as char
  }

  function HexValue(c: char): Option<nat> {
    if '0' <= c <= '9' then Some(c as int - 48)
    else if 'A' <= c <= 'F' then Some(c as int - 55)
    else if 'a' <= c <= 'f' then Some(c as int - 87)
    else None
  }

  /** The UTF-8 encoding of one scalar value. */
  function Utf8(c: char): (bs: seq<Byte>)
    ensures 1 <= |bs| <= 4
  {
    var n := c as int;
    if n < 0x80 then [n]
    else if n < 0x800 then [0xC0 + n / 64, 0x80 + n % 64]
    else if n < 0x10000 then [0xE0 + n / 64 / 64, 0x80 + n / 64 % 64, 0x80 + n % 64]
    else [0xF0 + n / 64 / 64 / 64, 0x80 + n / 64 / 64 % 64, 0x80 + n / 64 % 64, 0x80 + n % 64]
  }

  function PercentByte(b: Byte): (r: string)
    ensures |r| == 3 && r[0] == '%'
  {
    ['%', HexDigit(b / 16), HexDigit(b % 16)]
  }

  function PercentBytes(bs: seq<Byte>): (r: string)
    ensures |r| == 3 * |bs|
    ensures forall k :: 0 <= k < |r| ==> EncodedChar(r[k])
  {
    if bs == [] then [] else PercentByte(bs[0]) + PercentBytes(bs[1..])
  }

  function EncodeChar(c: char): (r: string)
    ensures forall k :: 0 <= k < |r| ==> EncodedChar(r[k])
  {
    if Unreserved(c) then [c] else PercentBytes(Utf8(c))
  }

  /** `encodeURIComponent(s)`. */
  function Encode(s: string): (r: string)
    ensures forall k :: 0 <= k < |r| ==> EncodedChar(r[k])
    ensures s == [] <==> r == []
  {
    if s == [] then [] else EncodeChar(s[0]) + Encode(s[1..])
  }

  /** The encoding holds no path or parameter separator: no `/`, `;`, `,`, `:` or `?`. */
  lemma EncodeHasNoSeparator(s: string)
    ensures forall k :: 0 <= k < |Encode(s)| ==> Encode(s)[k] !in "/;,:?&=#"
  {
  }

  /** Strings of unreserved characters are left as they are. */
  lemma {:induction false} EncodeUnreserved(s: string)
    requires forall k :: 0 <= k < |s| ==> Unreserved(s[k])
    ensures Encode(s) == s
  {
    if s != [] {
      EncodeUnreserved(s[1..]);
    }
  }

  /** Encoding distributes over concatenation. */
  lemma {:induction false} EncodeAppend(a: string, b: string)
    ensures Encode(a + b) == Encode(a) + Encode(b)
  {
    if a == [] {
      assert a + b == b;
    } else {
      var ab := a + b;
      assert ab[0] == a[0];
      assert ab[1..] == a[1..] + b;
      EncodeAppend(a[1..], b);
      assert Encode(ab) == EncodeChar(a[0]) + Encode(a[1..] + b);
    }
  }

  // ---- decoding, the inverse ----

  /** The byte written as `%XY` at index `i` of `s`. */
  function ByteAt(s: string, i: nat): Option<Byte> {
    if i + 3 > |s| || s[i] != '%' then None
    else match (HexValue(s[i + 1]), HexValue(s[i + 2]))
      case (Some(h), Some(l)) => if h < 16 && l < 16 then Some(h * 16 + l) else None
      case _ => None
  }

  /** The continuation byte `%XY` at index `i` of `s`, as its six payload bits. */
  function ContinuationAt(s: string, i: nat): Option<nat> {
    match ByteAt(s, i)
    case Some(b) => if 0x80 <= b < 0xC0 then Some(b - 0x80) else None
    case None => None
  }

  function ScalarOf(n: int): Option<char> {
    if 0 <= n < 0xD800 || 0xE000 <= n < 0x110000 then Some(n as char) else None
  }

  /** The character whose percent-encoded UTF-8 bytes start `s`, and how many characters of `s` they take. */
  function DecodeOne(s: string): Option<(char, nat)> {
    match ByteAt(s, 0)
    case None => None
    case Some(b) =>
      if b < 0x80 then
        match ScalarOf(b) case Some(c) => Some((c, 3)) case None => None
      else if 0xC0 <= b < 0xE0 then
        match ContinuationAt(s, 3)
        case Some(x) =>
          (match ScalarOf((b - 0xC0) * 64 + x) case Some(c) => Some((c, 6)) case None => None)
        case None => None
      else if 0xE0 <= b < 0xF0 then
        match (ContinuationAt(s, 3), ContinuationAt(s, 6))
        case (Some(x), Some(y)) =>
          (match ScalarOf(((b - 0xE0) * 64 + x) * 64 + y) case Some(c) => Some((c, 9)) case None => None)
        case _ => None
      else if 0xF0 <= b < 0xF8 then
        match (ContinuationAt(s, 3), ContinuationAt(s, 6), ContinuationAt(s, 9))
        case (Some(x), Some(y), Some(z)) =>
          (match ScalarOf((((b - 0xF0) * 64 + x) * 64 + y) * 64 + z) case Some(c) => Some((c, 12)) case None => None)
        case _ => None
      else None
  }

  /** Reads back what `Encode` wrote; `None` on text `Encode` cannot produce. */
  function Decode(s: string): Option<string>
    decreases |s|
  {
    if s == [] then Some([])
    else if s[0] != '%' then
      match Decode(s[1..]) case Some(t) => Some([s[0]] + t) case None => None
    else
      match DecodeOne(s)
      case None => None
      case Some((c, n)) =>
        if 0 < n <= |s| then
          match Decode(s[n..]) case Some(t) => Some([c] + t) case None => None
        else None
  }

  lemma HexRoundTrip(d: nat)
    requires d < 16
    ensures HexValue(HexDigit(d)) == Some(d)
  {
  }

  /** The `k`-th byte of a percent-encoded byte string sits at index `3 * k`. */
  lemma {:induction false} PercentBytesAt(bs: seq<Byte>, k: nat, rest: string)
    requires k < |bs|
    ensures ByteAt(PercentBytes(bs) + rest, 3 * k) == Some(bs[k])
  {
    var s := PercentBytes(bs) + rest;
    if k == 0 {
      assert s[0] == '%' && s[1] == HexDigit(bs[0] / 16) && s[2] == HexDigit(bs[0] % 16);
      HexRoundTrip(bs[0] / 16);
      HexRoundTrip(bs[0] % 16);
    } else {
      PercentBytesAt(bs[1..], k - 1, rest);
      var t := PercentBytes(bs[1..]) + rest;
      assert s == PercentByte(bs[0]) + t;
      assert s[3 * k..] == t[3 * (k - 1)..];
      assert s[3 * k] == t[3 * (k - 1)];
      assert s[3 * k + 1] == t[3 * (k - 1) + 1];
      assert s[3 * k + 2] == t[3 * (k - 1) + 2];
    }
  }

  lemma Split64(n: nat)
    ensures n / 64 * 64 + n % 64 == n
  {
  }

  /** The payload bits of a continuation byte of a percent-encoded byte string. */
  lemma ContinuationOf(bs: seq<Byte>, k: nat, rest: string)
    requires k < |bs| && 0x80 <= bs[k] < 0xC0
    ensures ContinuationAt(PercentBytes(bs) + rest, 3 * k) == Some(bs[k] - 0x80)
  {
    PercentBytesAt(bs, k, rest);
  }

  /** Three six-bit groups put back together. */
  lemma Reassemble3(n: nat)
    ensures (n / 64 / 64 * 64 + n / 64 % 64) * 64 + n % 64 == n
  {
    Split64(n);
    Split64(n / 64);
  }

  /** Four six-bit groups put back together. */
  lemma Reassemble4(n: nat)
    ensures ((n / 64 / 64 / 64 * 64 + n / 64 / 64 % 64) * 64 + n / 64 % 64) * 64 + n % 64 == n
  {
    Split64(n / 64 / 64);
    Reassemble3(n);
  }

  /** `DecodeOne` reads back the bytes of a character that `EncodeChar` percent-encodes. */
  lemma DecodeOneEncoded(c: char, rest: string)
    ensures DecodeOne(PercentBytes(Utf8(c)) + rest) == Some((c, |PercentBytes(Utf8(c))|))
  {
    var n := c as int;
    var bs := Utf8(c);
    PercentBytesAt(bs, 0, rest);
    if n < 0x80 {
    } else if n < 0x800 {
      DecodeTwoBytes(c, rest);
    } else if n < 0x10000 {
      DecodeThreeBytes(c, rest);
    } else {
      DecodeFourBytes(c, rest);
    }
  }

  lemma DecodeTwoBytes(c: char, rest: string)
    requires 0x80 <= c as int < 0x800
    ensures DecodeOne(PercentBytes(Utf8(c)) + rest) == Some((c, 6))
  {
    var n := c as int;
    var bs := Utf8(c);
    PercentBytesAt(bs, 0, rest);
    ContinuationOf(bs, 1, rest);
    Split64(n);
    assert (bs[0] as int - 0xC0) * 64 + (bs[1] as int - 0x80) == n;
  }

  /** How `DecodeOne` reads a three-byte sequence. */
  lemma DecodeOneThree(s: string, b: nat, x: nat, y: nat)
    requires ByteAt(s, 0) == Some(b) && 0xE0 <= b < 0xF0
    requires ContinuationAt(s, 3) == Some(x) && ContinuationAt(s, 6) == Some(y)
    ensures DecodeOne(s) == match ScalarOf(((b - 0xE0) * 64 + x) * 64 + y) case Some(c) => Some((c, 9)) case None => None
  {
  }

  /** How `DecodeOne` reads a four-byte sequence. */
  lemma DecodeOneFour(s: string, b: nat, x: nat, y: nat, z: nat)
    requires ByteAt(s, 0) == Some(b) && 0xF0 <= b < 0xF8
    requires ContinuationAt(s, 3) == Some(x) && ContinuationAt(s, 6) == Some(y) && ContinuationAt(s, 9) == Some(z)
    ensures DecodeOne(s) == match ScalarOf((((b - 0xF0) * 64 + x) * 64 + y) * 64 + z) case Some(c) => Some((c, 12)) case None => None
  {
  }

  /** A character's code point is a scalar value. */
  lemma ScalarOfChar(c: char)
    ensures ScalarOf(c as int) == Some(c)
  {
  }

  lemma DecodeThreeBytes(c: char, rest: string)
    requires 0x800 <= c as int < 0x10000
    ensures DecodeOne(PercentBytes(Utf8(c)) + rest) == Some((c, 9))
  {
    var n := c as int;
    var bs := Utf8(c);
    var s := PercentBytes(bs) + rest;
    assert bs[0] as int - 0xE0 == n / 64 / 64 && bs[1] as int - 0x80 == n / 64 % 64 && bs[2] as int - 0x80 == n % 64;
    PercentBytesAt(bs, 0, rest);
    ContinuationOf(bs, 1, rest);
    ContinuationOf(bs, 2, rest);
    DecodeOneThree(s, bs[0], bs[1] - 0x80, bs[2] - 0x80);
    Reassemble3(n);
    ScalarOfChar(c);
  }

  lemma DecodeFourBytes(c: char, rest: string)
    requires 0x10000 <= c as int
    ensures DecodeOne(PercentBytes(Utf8(c)) + rest) == Some((c, 12))
  {
    var n := c as int;
    var bs := Utf8(c);
    var s := PercentBytes(bs) + rest;
    assert n / 64 / 64 / 64 < 8;
    assert bs[0] as int - 0xF0 == n / 64 / 64 / 64 && bs[1] as int - 0x80 == n / 64 / 64 % 64;
    assert bs[2] as int - 0x80 == n / 64 % 64 && bs[3] as int - 0x80 == n % 64;
    PercentBytesAt(bs, 0, rest);
    ContinuationOf(bs, 1, rest);
    ContinuationOf(bs, 2, rest);
    ContinuationOf(bs, 3, rest);
    DecodeOneFour(s, bs[0], bs[1] - 0x80, bs[2] - 0x80, bs[3] - 0x80);
    Reassemble4(n);
    ScalarOfChar(c);
  }

  /** Decoding reads back one encoded character and carries on with the rest. */
  lemma DecodeEncodedChar(c: char, rest: string)
    ensures Decode(EncodeChar(c) + rest) == match Decode(rest) case Some(t) => Some([c] + t) case None => None
  {
    var s := EncodeChar(c) + rest;
    if Unreserved(c) {
      assert s[0] == c && s[1..] == rest;
    } else {
      var e := PercentBytes(Utf8(c));
      DecodeOneEncoded(c, rest);
      assert s[0] == '%';
      assert s[|e|..] == rest;
    }
  }

  /** Round trip: decoding the encoding of a string gives the string back. */
  lemma {:induction false} DecodeEncode(s: string)
    ensures Decode(Encode(s)) == Some(s)
  {
    if s != [] {
      var e := Encode(s[1..]);
      DecodeEncode(s[1..]);
      DecodeEncodedChar(s[0], e);
      assert Encode(s) == EncodeChar(s[0]) + e;
      assert [s[0]] + s[1..] == s;
    }
  }

  /** Distinct texts have distinct encodings. */
  lemma EncodeInjective(a: string, b: string)
    requires Encode(a) == Encode(b)
    ensures a == b
  {
    DecodeEncode(a);
    DecodeEncode(b);
  }
}
