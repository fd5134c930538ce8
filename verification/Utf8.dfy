/**
 UTF-8 (RFC 3629) as `TextEncoder` and `encodeURIComponent` write it, and as `TextDecoder`
 and `decodeURIComponent` read it. A Dafny `char` is a Unicode scalar value, so a `string` here
 is a well-formed JavaScript string.
*/
module Utf8 {

  type Byte = b: int | 0 <= b < 256

  function CharOf(n: int): (c: char)
    requires 0 <= n < 0xD800 || 0xE000 <= n < 0x11_0000
    ensures c as int == n
  {
    n as char
  }

  function EncodeChar(c: char): (b: seq<Byte>)
    ensures 1 <= |b| <= 4
  {
    var n := c as int;
    if n < 0x80 then [n]
    else if n < 0x800 then [0xC0 + n / 64, 0x80 + n % 64]
    else if n < 0x1_0000 then [0xE0 + n / 64 / 64, 0x80 + n / 64 % 64, 0x80 + n % 64]
    else [0xF0 + n / 64 / 64 / 64, 0x80 + n / 64 / 64 % 64, 0x80 + n / 64 % 64, 0x80 + n % 64]
  }

  function Encode(s: string): seq<Byte> {
    if s == [] then [] else EncodeChar(s[0]) + Encode(s[1..])
  }

  /** One step of a decoder: a character and the bytes it took, or the bytes of a malformed piece. */
  datatype Step = Good(c: char, length: nat) | Bad(length: nat)

  /** Continuation bytes announced by a lead byte; 0 for ASCII, and -1 for a byte that cannot lead. */
  function Continuations(lead: Byte): int {
    if lead < 0x80 then 0
    else if 0xC2 <= lead <= 0xDF then 1
    else if 0xE0 <= lead <= 0xEF then 2
    else if 0xF0 <= lead <= 0xF4 then 3
    else -1
  }

  /** The second byte is narrower after four leads, which shuts out overlong forms and surrogates. */
  predicate SecondOk(lead: Byte, second: Byte) {
    (if lead == 0xE0 then 0xA0 else if lead == 0xF0 then 0x90 else 0x80) <= second
    <= (if lead == 0xED then 0x9F else if lead == 0xF4 then 0x8F else 0xBF)
  }

  predicate IsContinuation(b: Byte) {
    0x80 <= b <= 0xBF
  }

  /** Appends the six bits of a continuation byte. */
  function AppendBits(high: int, low: Byte): int {
    high * 64 + (low as int - 0x80)
  }

  function DecodeOne(b: seq<Byte>): (r: Step)
    requires b != []
    ensures 1 <= r.length <= |b|
  {
    var n := Continuations(b[0]);
    if n == 0 then Good(CharOf(b[0]), 1)
    else if n < 0 || |b| < 2 || !SecondOk(b[0], b[1]) then Bad(1)
    else if n == 1 then Good(CharOf(AppendBits(b[0] - 0xC0, b[1])), 2)
    else if |b| < 3 || !IsContinuation(b[2]) then Bad(2)
    else if n == 2 then Good(CharOf(AppendBits(AppendBits(b[0] - 0xE0, b[1]), b[2])), 3)
    else if |b| < 4 || !IsContinuation(b[3]) then Bad(3)
    else Good(CharOf(AppendBits(AppendBits(AppendBits(b[0] - 0xF0, b[1]), b[2]), b[3])), 4)
  }

  const REPLACEMENT := '\U{FFFD}'
  const BOM := '\U{FEFF}'

  /** Decoding in replacement mode. */
  function DecodeLossy(b: seq<Byte>): string {
    if b == [] then ""
    else
      var r := DecodeOne(b);
      [if r.Good? then r.c else REPLACEMENT] + DecodeLossy(b[r.length..])
  }

  /** `new TextDecoder().decode`: replacement mode, and a leading byte order mark is dropped. */
  function TextDecode(b: seq<Byte>): string {
    if [0xEF, 0xBB, 0xBF] <= b then DecodeLossy(b[3..]) else DecodeLossy(b)
  }

  lemma DecodeOneEncode(c: char, rest: seq<Byte>)
    ensures DecodeOne(EncodeChar(c) + rest) == Good(c, |EncodeChar(c)|)
  {
    var n, e := c as int, EncodeChar(c);
    var b := e + rest;
    assert forall k :: 0 <= k < |e| ==> b[k] == e[k];
    hide EncodeChar;
    DecodePrefix(e, b, n);
  }

  /** What a lead and its continuations mean, whatever follows them. */
  lemma DecodePrefix(e: seq<Byte>, b: seq<Byte>, n: int)
    requires 0 <= n < 0xD800 || 0xE000 <= n < 0x11_0000
    requires e == EncodeChar(CharOf(n)) && |e| <= |b| && forall k :: 0 <= k < |e| ==> b[k] == e[k]
    ensures DecodeOne(b) == Good(CharOf(n), |e|)
  {
    if n >= 0x1_0000 {
      assert b[0] == 0xF0 + n / 64 / 64 / 64 && b[1] == 0x80 + n / 64 / 64 % 64;
      assert AppendBits(AppendBits(AppendBits(b[0] - 0xF0, b[1]), b[2]), b[3]) == n;
    } else if n >= 0x800 {
      assert b[0] == 0xE0 + n / 64 / 64 && b[1] == 0x80 + n / 64 % 64;
      assert AppendBits(AppendBits(b[0] - 0xE0, b[1]), b[2]) == n;
    }
  }

  lemma {:induction false} DecodeLossyEncode(s: string)
    ensures DecodeLossy(Encode(s)) == s
  {
    if s != [] {
      var b := Encode(s);
      DecodeOneEncode(s[0], Encode(s[1..]));
      assert b[|EncodeChar(s[0])|..] == Encode(s[1..]);
      DecodeLossyEncode(s[1..]);
    }
  }

  /** Text survives `TextEncoder` followed by `TextDecoder` unless it starts with a byte order mark. */
  lemma TextRoundTrip(s: string)
    ensures TextDecode(Encode(s)) == s <==> !(s != [] && s[0] == BOM)
  {
    var b := Encode(s);
    DecodeLossyEncode(s);
    hide DecodeOne, DecodeLossy;
    if s != [] {
      var c, rest := s[0], Encode(s[1..]);
      DecodeOneEncode(c, rest);
      assert EncodeChar(BOM) == [0xEF, 0xBB, 0xBF];
      if [0xEF, 0xBB, 0xBF] <= b {
        assert b[0] == 0xEF && b[1] == 0xBB && b[2] == 0xBF;
        assert c == BOM && b[3..] == rest;
        DecodeLossyEncode(s[1..]);
      }
    }
  }

  /** The other way round: whatever decodes to a character is its encoding, so there are no second ways to write one. */
  lemma DecodeOneSound(b: seq<Byte>)
    requires b != [] && DecodeOne(b).Good?
    ensures DecodeOne(b).length <= |b| && b[..DecodeOne(b).length] == EncodeChar(DecodeOne(b).c)
  {
    var n := Continuations(b[0]);
    if n == 1 {
      TwoSound(b);
    } else if n == 2 {
      ThreeSound(b);
    } else if n == 3 {
      FourSound(b);
    }
  }

  lemma TwoSound(b: seq<Byte>)
    requires b != [] && Continuations(b[0]) == 1 && DecodeOne(b).Good?
    ensures |b| >= 2 && DecodeOne(b).length == 2 && EncodeChar(DecodeOne(b).c) == [b[0], b[1]]
  {
    SplitBits(b[0] - 0xC0, b[1] - 0x80);
  }

  lemma ThreeSound(b: seq<Byte>)
    requires b != [] && Continuations(b[0]) == 2 && DecodeOne(b).Good?
    ensures |b| >= 3 && DecodeOne(b).length == 3 && EncodeChar(DecodeOne(b).c) == [b[0], b[1], b[2]]
  {
    SplitBits(b[0] - 0xE0, b[1] - 0x80);
    SplitBits(AppendBits(b[0] - 0xE0, b[1]), b[2] - 0x80);
  }

  lemma FourSound(b: seq<Byte>)
    requires b != [] && Continuations(b[0]) == 3 && DecodeOne(b).Good?
    ensures |b| >= 4 && DecodeOne(b).length == 4 && EncodeChar(DecodeOne(b).c) == [b[0], b[1], b[2], b[3]]
  {
    SplitBits(b[0] - 0xF0, b[1] - 0x80);
    SplitBits(AppendBits(b[0] - 0xF0, b[1]), b[2] - 0x80);
    SplitBits(AppendBits(AppendBits(b[0] - 0xF0, b[1]), b[2]), b[3] - 0x80);
  }

  lemma SplitBits(high: int, low: int)
    requires 0 <= low < 64
    ensures (high * 64 + low) / 64 == high && (high * 64 + low) % 64 == low
  {
  }

  /** A character of each length. */
  lemma Samples()
    ensures EncodeChar('A') == [0x41] && EncodeChar('\U{E9}') == [0xC3, 0xA9]
    ensures EncodeChar('\U{20AC}') == [0xE2, 0x82, 0xAC] && EncodeChar('\U{1F600}') == [0xF0, 0x9F, 0x98, 0x80]
  {
  }
}
