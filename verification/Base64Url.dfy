/**
 Base64 and base64url (RFC 4648 sections 4 and 5) as src/auth/github-oauth.ts composes them
 from `btoa`, `atob` and three replacements.
*/
module Base64Url {
  import opened Options
  import opened Utf8

  /** What `btoa` reads and `atob` returns: one character per byte. */
  type Binary = s: string | forall k :: 0 <= k < |s| ==> s[k] as int < 256

  function Latin1(bytes: seq<Byte>): (s: Binary)
    ensures |s| == |bytes| && forall k :: 0 <= k < |s| ==> s[k] as int == bytes[k]
  {
    seq(|bytes|, k requires 0 <= k < |bytes| => CharOf(bytes[k]))
  }

  function Bytes(s: Binary): (bytes: seq<Byte>)
    ensures |s| == |bytes| && forall k :: 0 <= k < |s| ==> bytes[k] == s[k] as int
  {
    seq(|s|, k requires 0 <= k < |s| => s[k] as int)
  }

  /** Table 1 of RFC 4648. */
  function SextetChar(v: int): (c: char)
    requires 0 <= v < 64
    ensures SextetValue(c) == v
  {
    if v < 26 then (v + 65) as char
    else if v < 52 then (v + 71) as char
    else if v < 62 then (v - 4) as char
    else if v == 62 then '+' else '/'
  }

  /** The value of a character of that table, or -1. */
  function SextetValue(c: char): (v: int)
    ensures -1 <= v < 64
  {
    if 'A' <= c <= 'Z' then c as int - 65
    else if 'a' <= c <= 'z' then c as int - 71
    else if '0' <= c <= '9' then c as int + 4
    else if c == '+' then 62
    else if c == '/' then 63
    else -1
  }

  /** Three bytes as four characters; missing bytes count as zero. */
  function Quartet(a: Byte, b: Byte, c: Byte): (s: string)
    ensures |s| == 4 && forall k :: 0 <= k < 4 ==> SextetValue(s[k]) >= 0
  {
    [SextetChar(a / 4), SextetChar(a % 4 * 16 + b / 16), SextetChar(b % 16 * 4 + c / 64), SextetChar(c % 64)]
  }

  function Btoa(s: Binary): string {
    var b := Bytes(s);
    if |b| == 0 then ""
    else if |b| == 1 then Quartet(b[0], 0, 0)[..2] + "=="
    else if |b| == 2 then Quartet(b[0], b[1], 0)[..3] + "="
    else Quartet(b[0], b[1], b[2]) + Btoa(s[3..])
  }

  /** `.replace(/=+$/g, "")`. */
  function StripPadding(s: string): string {
    if s != [] && s[|s| - 1] == '=' then StripPadding(s[..|s| - 1]) else s
  }

  function Replace(s: string, from: char, to: char): (r: string)
    ensures |r| == |s| && forall k :: 0 <= k < |s| ==> r[k] == if s[k] == from then to else s[k]
  {
    seq(|s|, k requires 0 <= k < |s| => if s[k] == from then to else s[k])
  }

  /** The value of the expression returned by `bytesToBase64Url`. */
  function EncodeBinary(binary: Binary): string {
    StripPadding(Replace(Replace(Btoa(binary), '+', '-'), '/', '_'))
  }

  method BytesToBase64Url(bytes: seq<Byte>) returns (encoded: string)
    ensures encoded == EncodeBinary(Latin1(bytes))
  {
    var binary: Binary := "";
    for i := 0 to |bytes|
      invariant binary == Latin1(bytes[..i])
    {
      binary := binary + [CharOf(bytes[i])];
    }
    assert bytes[..|bytes|] == bytes;
    encoded := StripPadding(Replace(Replace(Btoa(binary), '+', '-'), '/', '_'));
  }

  predicate IsAsciiSpace(c: char) {
    c == '\t' || c == '\n' || c == '\U{0C}' || c == '\r' || c == ' '
  }

  function DropAsciiSpace(s: string): string {
    if s == [] then "" else (if IsAsciiSpace(s[0]) then "" else [s[0]]) + DropAsciiSpace(s[1..])
  }

  function Sextet(s: string, k: nat): int {
    if k < |s| then SextetValue(s[k]) else 0
  }

  /** Three bytes from four sextets; surplus low bits of a short last group are dropped. */
  function Triple(v0: int, v1: int, v2: int, v3: int): (b: Binary)
    requires 0 <= v0 < 64 && 0 <= v1 < 64 && 0 <= v2 < 64 && 0 <= v3 < 64
    ensures |b| == 3
  {
    [(v0 * 4 + v1 / 16) as char, (v1 % 16 * 16 + v2 / 4) as char, (v2 % 4 * 64 + v3) as char]
  }

  /** Four sextets at a time; a last group of three or two yields two or one bytes. */
  function DecodeSextets(s: string): Option<Binary> {
    if |s| == 0 then Some("")
    else if |s| == 1 then None
    else if Sextet(s, 0) < 0 || Sextet(s, 1) < 0 || Sextet(s, 2) < 0 || Sextet(s, 3) < 0 then None
    else
      var bytes := Triple(Sextet(s, 0), Sextet(s, 1), Sextet(s, 2), Sextet(s, 3));
      if |s| < 4 then Some(bytes[..|s| - 1])
      else
        var rest := DecodeSextets(s[4..]);
        if rest.None? then None else Some(bytes + rest.value)
  }

  function DropPadding(s: string, most: nat): string {
    if most > 0 && s != [] && s[|s| - 1] == '=' then DropPadding(s[..|s| - 1], most - 1) else s
  }

  /** `atob`: the forgiving-base64 decode of the WHATWG Infra standard; None where it throws. */
  function Atob(s: string): Option<Binary> {
    var text := DropAsciiSpace(s);
    DecodeSextets(if |text| % 4 == 0 then DropPadding(text, 2) else text)
  }

  /** `padEnd` with `=`, by the count the source computes. */
  function Repad(s: string): (p: string)
    ensures |p| % 4 == 0
  {
    s + seq((4 - |s| % 4) % 4, _ => '=')
  }

  /** `base64UrlDecode` up to the bytes it hands to `TextDecoder`. */
  function DecodeBinary(s: string): Option<Binary> {
    Atob(Replace(Replace(Repad(s), '-', '+'), '_', '/'))
  }

  // ----- decoding undoes encoding -----

  predicate IsUrlChar(c: char) {
    'A' <= c <= 'Z' || 'a' <= c <= 'z' || '0' <= c <= '9' || c == '-' || c == '_'
  }

  /** Base64 text without its padding. */
  function Unpadded(s: Binary): (t: string)
    ensures forall k :: 0 <= k < |t| ==> SextetValue(t[k]) >= 0
  {
    var b := Bytes(s);
    if |b| == 0 then ""
    else if |b| == 1 then Quartet(b[0], 0, 0)[..2]
    else if |b| == 2 then Quartet(b[0], b[1], 0)[..3]
    else Quartet(b[0], b[1], b[2]) + Unpadded(s[3..])
  }

  function PaddingOf(s: Binary): (p: string)
    ensures |p| <= 2 && forall k :: 0 <= k < |p| ==> p[k] == '='
  {
    if |s| % 3 == 1 then "==" else if |s| % 3 == 2 then "=" else ""
  }

  function FirstGroup(s: Binary): (q: string)
    requires |s| >= 3
    ensures |q| == 4
  {
    Quartet(Bytes(s)[0], Bytes(s)[1], Bytes(s)[2])
  }

  lemma Groups(s: Binary)
    requires |s| >= 3
    ensures Btoa(s) == FirstGroup(s) + Btoa(s[3..])
    ensures Unpadded(s) == FirstGroup(s) + Unpadded(s[3..])
  {
    hide Quartet;
  }

  lemma LastGroup(s: Binary)
    requires |s| < 3
    ensures Btoa(s) == Unpadded(s) + PaddingOf(s)
    ensures |Unpadded(s)| == if |s| == 0 then 0 else |s| + 1
  {
    hide Quartet;
  }

  lemma {:induction false} UnpaddedLength(s: Binary)
    ensures |Unpadded(s)| % 4 == if |s| % 3 == 0 then 0 else |s| % 3 + 1
  {
    hide Unpadded, Btoa, FirstGroup, PaddingOf;
    if |s| < 3 {
      LastGroup(s);
    } else {
      var rest: Binary := s[3..];
      UnpaddedLength(rest);
      Groups(s);
      assert |s| == |rest| + 3 && |Unpadded(s)| == |Unpadded(rest)| + 4;
    }
  }

  lemma {:induction false} BtoaConcat(s: Binary)
    ensures Btoa(s) == Unpadded(s) + PaddingOf(s)
  {
    hide Btoa, Unpadded, FirstGroup;
    if |s| < 3 {
      LastGroup(s);
    } else {
      var q, rest: Binary := FirstGroup(s), s[3..];
      BtoaConcat(rest);
      Groups(s);
      assert q + (Unpadded(rest) + PaddingOf(rest)) == (q + Unpadded(rest)) + PaddingOf(rest);
    }
  }

  lemma BtoaParts(s: Binary)
    ensures Btoa(s) == Unpadded(s) + PaddingOf(s)
    ensures |Unpadded(s)| % 4 == if |s| % 3 == 0 then 0 else |s| % 3 + 1
  {
    BtoaConcat(s);
    UnpaddedLength(s);
  }

  lemma TripleOfSplit(a: Byte, b: Byte, c: Byte)
    ensures Triple(a / 4, a % 4 * 16 + b / 16, b % 16 * 4 + c / 64, c % 64) == Latin1([a, b, c])
  {
    assert (a % 4 * 16 + b / 16) / 16 == a % 4 && (a % 4 * 16 + b / 16) % 16 == b / 16;
    assert (b % 16 * 4 + c / 64) / 4 == b % 16 && (b % 16 * 4 + c / 64) % 4 == c / 64;
  }

  lemma QuartetTriple(a: Byte, b: Byte, c: Byte)
    ensures var q := Quartet(a, b, c);
      && Triple(Sextet(q, 0), Sextet(q, 1), Sextet(q, 2), Sextet(q, 3)) == Latin1([a, b, c])
      && (c == 0 ==> Sextet(q, 3) == 0) && (b == 0 && c == 0 ==> Sextet(q, 2) == 0)
  {
    hide SextetChar, SextetValue, Triple, Latin1;
    var q := Quartet(a, b, c);
    TripleOfSplit(a, b, c);
    assert Sextet(q, 0) == a / 4 && Sextet(q, 1) == a % 4 * 16 + b / 16;
    assert Sextet(q, 2) == b % 16 * 4 + c / 64 && Sextet(q, 3) == c % 64;
  }

  /** A truncated quartet has the same sextets up to its length. */
  lemma DecodeShort(q: string, n: nat)
    requires |q| == 4 && 2 <= n <= 3 && (forall k :: 0 <= k < 4 ==> SextetValue(q[k]) >= 0)
    requires n == 2 ==> Sextet(q, 2) == 0
    requires Sextet(q, 3) == 0
    ensures DecodeSextets(q[..n])
            == Some(Triple(Sextet(q, 0), Sextet(q, 1), Sextet(q, 2), Sextet(q, 3))[..n - 1])
  {
    hide SextetValue, Triple;
  }

  lemma {:induction false} DecodeUnpadded(s: Binary)
    ensures DecodeSextets(Unpadded(s)) == Some(s)
  {
    hide SextetValue, Triple, Quartet;
    var b, t := Bytes(s), Unpadded(s);
    if |b| >= 3 {
      QuartetTriple(b[0], b[1], b[2]);
      assert t[4..] == Unpadded(s[3..]);
      DecodeUnpadded(s[3..]);
      assert Latin1([b[0], b[1], b[2]]) + s[3..] == s;
    } else if |b| == 2 {
      QuartetTriple(b[0], b[1], 0);
      DecodeShort(Quartet(b[0], b[1], 0), 3);
      assert Latin1([b[0], b[1], 0])[..2] == s;
    } else if |b| == 1 {
      QuartetTriple(b[0], 0, 0);
      DecodeShort(Quartet(b[0], 0, 0), 2);
      assert Latin1([b[0], 0, 0])[..1] == s;
    }
  }

  // ----- through the URL alphabet and the padding arithmetic -----

  lemma {:induction false} StripAppended(t: string, p: string)
    requires '=' !in t && forall k :: 0 <= k < |p| ==> p[k] == '='
    ensures StripPadding(t + p) == t
    decreases |p|
  {
    if p == [] {
      assert t + p == t;
      assert t != [] ==> t[|t| - 1] in t;
    } else {
      assert (t + p)[..|t + p| - 1] == t + p[..|p| - 1];
      StripAppended(t, p[..|p| - 1]);
    }
  }

  function ToUrl(t: string): string {
    Replace(Replace(t, '+', '-'), '/', '_')
  }

  function FromUrl(t: string): string {
    Replace(Replace(t, '-', '+'), '_', '/')
  }

  lemma UrlAlphabet(t: string)
    requires forall k :: 0 <= k < |t| ==> SextetValue(t[k]) >= 0
    ensures FromUrl(ToUrl(t)) == t && forall k :: 0 <= k < |t| ==> IsUrlChar(ToUrl(t)[k])
  {
  }

  /** The encoding is the unpadded text over the URL-safe alphabet. */
  lemma EncodingIsUnpadded(s: Binary)
    ensures EncodeBinary(s) == ToUrl(Unpadded(s))
    ensures forall k :: 0 <= k < |Unpadded(s)| ==>
              EncodeBinary(s)[k] == var c := Unpadded(s)[k]; if c == '+' then '-' else if c == '/' then '_' else c
    ensures forall k :: 0 <= k < |EncodeBinary(s)| ==> IsUrlChar(EncodeBinary(s)[k])
  {
    BtoaParts(s);
    var t, p := Unpadded(s), PaddingOf(s);
    UrlAlphabet(t);
    assert ToUrl(t + p) == ToUrl(t) + p;
    StripAppended(ToUrl(t), p);
  }

  lemma {:induction false} NoSpaceToDrop(s: string)
    requires forall k :: 0 <= k < |s| ==> !IsAsciiSpace(s[k])
    ensures DropAsciiSpace(s) == s
  {
    if s != [] {
      NoSpaceToDrop(s[1..]);
    }
  }

  lemma {:induction false} DropAppended(t: string, p: string, most: nat)
    requires '=' !in t && |p| <= most && forall k :: 0 <= k < |p| ==> p[k] == '='
    ensures DropPadding(t + p, most) == t
    decreases |p|
  {
    if p == [] {
      assert t + p == t;
      assert t != [] ==> t[|t| - 1] in t;
    } else {
      assert (t + p)[..|t + p| - 1] == t + p[..|p| - 1];
      DropAppended(t, p[..|p| - 1], most - 1);
    }
  }

  /** The count handed to `padEnd` is exactly the padding that `StripPadding` removed. */
  lemma RepadRestores(s: Binary)
    ensures Repad(EncodeBinary(s)) == ToUrl(Btoa(s))
  {
    EncodingIsUnpadded(s);
    BtoaParts(s);
    hide Unpadded, Btoa, EncodeBinary;
    var t, p := Unpadded(s), PaddingOf(s);
    assert (4 - |t| % 4) % 4 == |p|;
    assert Repad(ToUrl(t)) == ToUrl(t) + p;
    assert ToUrl(t + p) == ToUrl(t) + p;
  }

  /** Decoding returns the encoded bytes, for every byte sequence. */
  lemma DecodeEncode(s: Binary)
    ensures DecodeBinary(EncodeBinary(s)) == Some(s)
  {
    RepadRestores(s);
    BtoaParts(s);
    var t, p := Unpadded(s), PaddingOf(s);
    UrlAlphabet(t);
    assert FromUrl(ToUrl(t + p)) == FromUrl(ToUrl(t)) + p == t + p;
    NoSpaceToDrop(t + p);
    DropAppended(t, p, 2);
    DecodeUnpadded(s);
  }

  // ----- the alphabet, the bits, and refusals -----

  /** Upper-case letters, lower-case letters, digits, plus and slash, in this order. */
  lemma AlphabetMeans(v: int)
    requires 0 <= v < 64
    ensures v < 26 ==> SextetChar(v) as int == 'A' as int + v
    ensures 26 <= v < 52 ==> SextetChar(v) as int == 'a' as int + (v - 26)
    ensures 52 <= v < 62 ==> SextetChar(v) as int == '0' as int + (v - 52)
    ensures v == 62 ==> SextetChar(v) == '+'
    ensures v == 63 ==> SextetChar(v) == '/'
  {
  }

  /** The four characters are the 24 bits of the three bytes, highest first. */
  lemma QuartetMeans(a: Byte, b: Byte, c: Byte)
    ensures var q := Quartet(a, b, c);
      262_144 * SextetValue(q[0]) + 4096 * SextetValue(q[1]) + 64 * SextetValue(q[2]) + SextetValue(q[3])
      == 65_536 * a + 256 * b + c
  {
    hide SextetChar, SextetValue;
    assert a == a / 4 * 4 + a % 4 && b == b / 16 * 16 + b % 16 && c == c / 64 * 64 + c % 64;
  }

  /** ASCII white space is passed over, and a character outside the alphabet is refused. */
  lemma {:induction false} SpaceIsDropped(a: string, space: char, b: string)
    requires space in {' ', '\t', '\n', '\r', '\U{0C}'}
    ensures Atob(a + [space] + b) == Atob(a + b)
  {
    DropsSpace(a, space, b);
  }

  lemma {:induction false} DropsSpace(a: string, space: char, b: string)
    requires IsAsciiSpace(space)
    ensures DropAsciiSpace(a + [space] + b) == DropAsciiSpace(a + b)
  {
    if a == "" {
      assert (a + [space] + b)[1..] == b && a + b == b;
    } else {
      assert (a + [space] + b)[1..] == a[1..] + [space] + b && (a + b)[1..] == a[1..] + b;
      DropsSpace(a[1..], space, b);
    }
  }

  /** The decoder fails exactly on a foreign character, or on one character left over. */
  lemma {:induction false} DecodableExactly(s: string)
    ensures DecodeSextets(s).Some? <==> |s| % 4 != 1 && forall k :: 0 <= k < |s| ==> SextetValue(s[k]) >= 0
    decreases |s|
  {
    hide SextetValue, Triple;
    if |s| >= 4 {
      DecodableExactly(s[4..]);
      assert forall k :: 4 <= k < |s| ==> s[k] == s[4..][k - 4];
    }
  }
}
