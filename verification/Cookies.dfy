/**
 Cookies (src/auth/security.ts): percent-encoding (section 2.1 of RFC 3986), the Set-Cookie text
 that is sent, and the lookup in the Cookie header that comes back (section 4.2.1 of RFC 6265).
*/
module Cookies {
  import opened Options
  import opened Text
  import opened Utf8
  import Decimal

  // ----- percent-encoding -----

  /** The characters `encodeURIComponent` leaves alone. */
  predicate IsUnreserved(c: char) {
    'A' <= c <= 'Z' || 'a' <= c <= 'z' || '0' <= c <= '9' || c in "-_.!~*'()"
  }

  function HexDigit(d: int): (c: char)
    requires 0 <= d < 16
    ensures HexValue(c) == d
  {
    if d < 10 then (d + 48) as char else (d + 55) as char
  }

  /** Value of a hexadecimal digit of either case, or -1. */
  function HexValue(c: char): (d: int)
    ensures -1 <= d < 16
  {
    if '0' <= c <= '9' then c as int - 48
    else if 'A' <= c <= 'F' then c as int - 55
    else if 'a' <= c <= 'f' then c as int - 87
    else -1
  }

  function Octet(b: Byte): (s: string)
    ensures |s| == 3
  {
    ['%', HexDigit(b / 16), HexDigit(b % 16)]
  }

  function Octets(b: seq<Byte>): (s: string)
    ensures |s| == 3 * |b|
  {
    if b == [] then "" else Octet(b[0]) + Octets(b[1..])
  }

  function EscapeChar(c: char): string {
    if IsUnreserved(c) then [c] else Octets(EncodeChar(c))
  }

  function EncodeURIComponent(s: string): string {
    if s == [] then "" else EscapeChar(s[0]) + EncodeURIComponent(s[1..])
  }

  /** The octet written at the head of s, if one is. */
  function OctetAt(s: string): (b: Option<Byte>)
    ensures b.Some? ==> |s| >= 3
  {
    if |s| < 3 || s[0] != '%' || HexValue(s[1]) < 0 || HexValue(s[2]) < 0 then None
    else Some(HexValue(s[1]) * 16 + HexValue(s[2]))
  }

  /** The first n octets of s, if s starts with n of them. */
  function OctetsAt(s: string, n: nat): (b: Option<seq<Byte>>)
    ensures b.Some? ==> |b.value| == n && |s| >= 3 * n
  {
    if n == 0 then Some([])
    else
      var first := OctetAt(s);
      if first.None? then None
      else
        var rest := OctetsAt(s[3..], n - 1);
        if rest.None? then None else Some([first.value] + rest.value)
  }

  /** None where `decodeURIComponent` throws: a bad escape, or escaped bytes that are not UTF-8. */
  function DecodeURIComponent(s: string): Option<string>
    decreases |s|
  {
    if s == [] then Some("")
    else if s[0] != '%' then
      var rest := DecodeURIComponent(s[1..]);
      if rest.None? then None else Some([s[0]] + rest.value)
    else
      var lead := OctetAt(s);
      if lead.None? || Continuations(lead.value) < 0 then None
      else
        var n := 1 + Continuations(lead.value);
        var octets := OctetsAt(s, n);
        if octets.None? then None
        else
          var one := DecodeOne(octets.value);
          if one.Bad? || one.length != n then None
          else
            var rest := DecodeURIComponent(s[3 * n..]);
            if rest.None? then None else Some([one.c] + rest.value)
  }

  lemma OctetAtOctet(b: Byte, rest: string)
    ensures OctetAt(Octet(b) + rest) == Some(b)
  {
    var s := Octet(b) + rest;
    assert s[0] == '%' && s[1] == HexDigit(b / 16) && s[2] == HexDigit(b % 16);
  }

  lemma {:induction false} OctetsAtOctets(b: seq<Byte>, rest: string)
    ensures OctetsAt(Octets(b) + rest, |b|) == Some(b)
  {
    hide OctetAt, Octet;
    if b != [] {
      var s := Octets(b) + rest;
      assert s == Octet(b[0]) + (Octets(b[1..]) + rest);
      OctetAtOctet(b[0], Octets(b[1..]) + rest);
      assert s[3..] == Octets(b[1..]) + rest;
      OctetsAtOctets(b[1..], rest);
      assert [b[0]] + b[1..] == b;
    }
  }

  lemma LeadLength(c: char)
    ensures 1 + Continuations(EncodeChar(c)[0]) == |EncodeChar(c)|
  {
  }

  lemma DecodePlain(c: char, rest: string)
    requires c != '%'
    ensures DecodeURIComponent([c] + rest)
            == var r := DecodeURIComponent(rest); if r.None? then None else Some([c] + r.value)
  {
    assert ([c] + rest)[1..] == rest;
  }

  lemma DecodeOctets(c: char, rest: string)
    ensures DecodeURIComponent(Octets(EncodeChar(c)) + rest)
            == var r := DecodeURIComponent(rest); if r.None? then None else Some([c] + r.value)
  {
    var b := EncodeChar(c);
    var s := Octets(b) + rest;
    assert Octets(b) == Octet(b[0]) + Octets(b[1..]) && Octet(b[0])[0] == '%';
    hide Octet, OctetAt;
    OctetAtOctet(b[0], Octets(b[1..]) + rest);
    assert s == Octet(b[0]) + (Octets(b[1..]) + rest);
    OctetsAtOctets(b, rest);
    LeadLength(c);
    DecodeOneEncode(c, []);
    assert b + [] == b && s[3 * |b|..] == rest;
    hide EncodeChar, DecodeOne, OctetsAt, Octets;
  }

  lemma DecodeEscape(c: char, rest: string)
    ensures DecodeURIComponent(EscapeChar(c) + rest)
            == var r := DecodeURIComponent(rest); if r.None? then None else Some([c] + r.value)
  {
    hide DecodeURIComponent;
    if IsUnreserved(c) {
      DecodePlain(c, rest);
    } else {
      DecodeOctets(c, rest);
    }
  }

  /** Percent-encoding is undone for every well-formed string. */
  lemma {:induction false} PercentRoundTrip(s: string)
    ensures DecodeURIComponent(EncodeURIComponent(s)) == Some(s)
  {
    hide DecodeURIComponent, EscapeChar;
    if s != [] {
      PercentRoundTrip(s[1..]);
      DecodeEscape(s[0], EncodeURIComponent(s[1..]));
      assert [s[0]] + s[1..] == s;
    } else {
      EmptyDecodes();
    }
  }

  /** The bytes a text stands for: that of an escape, and the encoding of any other character. */
  ghost function BytesOf(s: string): Option<seq<Byte>> {
    if s == "" then Some([])
    else if s[0] == '%' && OctetAt(s).None? then None
    else
      var head: seq<Byte> := if s[0] == '%' then [OctetAt(s).value] else EncodeChar(s[0]);
      Prepend(head, BytesOf(s[if s[0] == '%' then 3 else 1..]))
  }

  lemma BytesOfEscape(s: string)
    requires OctetAt(s).Some?
    ensures s[0] == '%'
    ensures BytesOf(s) == Prepend([OctetAt(s).value], BytesOf(s[3..]))
  {
  }

  ghost function Prepend(head: seq<Byte>, rest: Option<seq<Byte>>): Option<seq<Byte>> {
    if rest.None? then None else Some(head + rest.value)
  }

  lemma {:induction false} BytesOfOctets(s: string, n: nat)
    requires OctetsAt(s, n).Some?
    ensures BytesOf(s) == Prepend(OctetsAt(s, n).value, BytesOf(s[3 * n..]))
  {
    hide OctetAt, BytesOf;
    var rest := BytesOf(s[3 * n..]);
    if n == 0 {
      assert s[0..] == s && (rest.Some? ==> [] + rest.value == rest.value);
    } else {
      BytesOfEscape(s);
      BytesOfOctets(s[3..], n - 1);
      assert s[3..][3 * (n - 1)..] == s[3 * n..];
      if rest.Some? {
        var first, others := OctetAt(s).value, OctetsAt(s[3..], n - 1).value;
        assert ([first] + others) + rest.value == [first] + (others + rest.value);
      }
    }
  }

  /** What decodes stands for the encoding of the result. */
  lemma {:induction false} DecodedBytes(s: string)
    requires DecodeURIComponent(s).Some?
    ensures BytesOf(s) == Some(Encode(DecodeURIComponent(s).value))
    decreases |s|
  {
    hide OctetAt, DecodeOne, EncodeChar, Continuations;
    if s != "" {
      var t := DecodeURIComponent(s).value;
      if s[0] != '%' {
        DecodedBytes(s[1..]);
        assert t[1..] == DecodeURIComponent(s[1..]).value;
      } else {
        var n := 1 + Continuations(OctetAt(s).value);
        var octets := OctetsAt(s, n).value;
        DecodeOneSound(octets);
        assert octets[..n] == octets;
        BytesOfOctets(s, n);
        DecodedBytes(s[3 * n..]);
        assert t[1..] == DecodeURIComponent(s[3 * n..]).value;
      }
    }
  }

  lemma NoLead(c: char)
    ensures !(0x80 <= EncodeChar(c)[0] <= 0xBF)
    ensures forall k :: 1 <= k < |EncodeChar(c)| ==> 0x80 <= EncodeChar(c)[k] <= 0xBF
  {
  }

  lemma PlainLeads(s: string)
    requires s != "" && s[0] != '%' && BytesOf(s).Some?
    ensures BytesOf(s).value != [] && !(0x80 <= BytesOf(s).value[0] <= 0xBF)
  {
    NoLead(s[0]);
  }

  /** Continuation bytes can only be written as escapes. */
  lemma {:induction false} ContinuationsEscaped(s: string, e: seq<Byte>, rest: seq<Byte>)
    requires BytesOf(s) == Some(e + rest) && forall b :: b in e ==> 0x80 <= b <= 0xBF
    ensures OctetsAt(s, |e|) == Some(e)
  {
    hide OctetAt, EncodeChar;
    if e != [] {
      assert (e + rest)[0] == e[0] && (e + rest)[1..] == e[1..] + rest;
      assert e[0] in e;
      if s[0] != '%' { PlainLeads(s); }
      assert BytesOf(s).value[1..] == BytesOf(s[3..]).value;
      assert forall b :: b in e[1..] ==> b in e;
      ContinuationsEscaped(s[3..], e[1..], rest);
      assert [e[0]] + e[1..] == e;
    }
  }

  lemma SameFirst(c: char, d: char, r: seq<Byte>, q: seq<Byte>)
    requires EncodeChar(c) + r == EncodeChar(d) + q
    ensures c == d && r == q
  {
    hide EncodeChar, DecodeOne;
    DecodeOneEncode(c, r);
    DecodeOneEncode(d, q);
    assert (EncodeChar(c) + r)[|EncodeChar(c)|..] == r && (EncodeChar(d) + q)[|EncodeChar(d)|..] == q;
  }

  /** An escaped character takes escapes for all of its bytes. */
  lemma EscapedChar(s: string, c: char, rest: seq<Byte>)
    requires s != "" && s[0] == '%' && BytesOf(s) == Some(EncodeChar(c) + rest)
    ensures OctetAt(s) == Some(EncodeChar(c)[0]) && OctetsAt(s, |EncodeChar(c)|) == Some(EncodeChar(c))
    ensures BytesOf(s[3 * |EncodeChar(c)|..]) == Some(rest)
  {
    hide OctetAt, EncodeChar;
    var e := EncodeChar(c);
    var tail := BytesOf(s[3..]).value;
    assert (e + rest)[0] == e[0] && (e + rest)[1..] == e[1..] + rest;
    assert BytesOf(s).value[1..] == tail;
    NoLead(c);
    ContinuationsEscaped(s[3..], e[1..], rest);
    assert [e[0]] + e[1..] == e;
    BytesOfOctets(s, |e|);
    assert (e + rest)[|e|..] == rest;
  }

  lemma {:induction false} BytesDecode(s: string, t: string)
    requires BytesOf(s) == Some(Encode(t))
    ensures DecodeURIComponent(s) == Some(t)
    decreases |s|
  {
    hide OctetAt, DecodeOne, EncodeChar, Continuations, OctetsAt;
    if s != "" {
      assert t != "";
      var c, rest := t[0], Encode(t[1..]);
      assert [c] + t[1..] == t;
      if s[0] != '%' {
        SameFirst(s[0], c, BytesOf(s[1..]).value, rest);
        BytesDecode(s[1..], t[1..]);
      } else {
        EscapedChar(s, c, rest);
        LeadLength(c);
        DecodeOneEncode(c, []);
        assert EncodeChar(c) + [] == EncodeChar(c);
        BytesDecode(s[3 * |EncodeChar(c)|..], t[1..]);
      }
    }
  }

  /** A text decodes exactly when the bytes it stands for are the encoding of the result. */
  lemma DecodesExactly(s: string, t: string)
    ensures DecodeURIComponent(s) == Some(t) <==> BytesOf(s) == Some(Encode(t))
  {
    hide DecodeURIComponent, BytesOf, Encode;
    if DecodeURIComponent(s) == Some(t) {
      DecodedBytes(s);
    }
    if BytesOf(s) == Some(Encode(t)) {
      BytesDecode(s, t);
    }
  }

  /** An escape is a percent sign and two hexadecimal digits of either case, the first worth sixteen times as much. */
  lemma EscapeReads(s: string, high: nat, low: nat)
    requires |s| >= 3 && high < 16 && low < 16
    requires s[1] == "0123456789ABCDEF"[high] || s[1] == "0123456789abcdef"[high]
    requires s[2] == "0123456789ABCDEF"[low] || s[2] == "0123456789abcdef"[low]
    ensures OctetAt(s) == if s[0] == '%' then Some(16 * high + low) else None
  {
    HexReads(s[1], high);
    HexReads(s[2], low);
  }

  lemma HexReads(c: char, d: nat)
    requires d < 16
    ensures HexValue(c) == d <==> c == "0123456789ABCDEF"[d] || c == "0123456789abcdef"[d]
  {
  }

  /** Anything else after a percent sign is no escape. */
  lemma NoEscape(s: string)
    requires |s| < 3 || s[1] !in "0123456789ABCDEFabcdef" || s[2] !in "0123456789ABCDEFabcdef"
    ensures OctetAt(s) == None
  {
    if |s| >= 3 {
      NoHex(s[1]);
      NoHex(s[2]);
    }
  }

  lemma NoHex(c: char)
    ensures HexValue(c) < 0 <==> c !in "0123456789ABCDEFabcdef"
  {
    var digits := "0123456789ABCDEFabcdef";
    var d := HexValue(c);
    if d >= 0 {
      HexReads(c, d);
      assert c == digits[d] || c == digits[if d < 10 then d else d + 6];
    } else {
      assert forall k :: 0 <= k < |digits| ==> digits[k] != c;
    }
  }

  lemma EmptyDecodes()
    ensures DecodeURIComponent("") == Some("")
  {
  }

  // ----- the Cookie header -----

  /** The lookup in one piece of the header: None when the key differs. */
  function KeyOf(cookie: string): string {
    Split(Trim(cookie), '=')[0]
  }

  function RawValueOf(cookie: string): string {
    Join(Split(Trim(cookie), '=')[1..], "=")
  }

  /** The first piece with the key decides, even when its value does not decode. */
  function Lookup(cookies: seq<string>, name: string): Option<string> {
    if cookies == [] then None
    else if KeyOf(cookies[0]) == name then DecodeURIComponent(RawValueOf(cookies[0]))
    else Lookup(cookies[1..], name)
  }

  method ExtractCookieValue(header: Option<string>, name: string) returns (value: Option<string>)
    ensures value == Lookup(Split(if header.Some? then header.value else "", ';'), name)
  {
    var cookies := Split(if header.Some? then header.value else "", ';');
    for i := 0 to |cookies|
      invariant Lookup(cookies, name) == Lookup(cookies[i..], name)
    {
      var parts := Split(Trim(cookies[i]), '=');
      if parts[0] == name {
        return DecodeURIComponent(Join(parts[1..], "="));
      }
      assert cookies[i..][1..] == cookies[i + 1..];
    }
    return None;
  }

  datatype SameSite = Lax | Strict | Unrestricted

  datatype CookieOptions = CookieOptions(maxAge: nat, path: string, httpOnly: bool, sameSite: SameSite, secure: bool)

  function SameSiteText(s: SameSite): string {
    match s case Lax => "Lax" case Strict => "Strict" case Unrestricted => "None"
  }

  /** The attributes after the name-value pair, in order. */
  function Attributes(options: CookieOptions): seq<string> {
    ["Max-Age=" + Decimal.Format(options.maxAge), "Path=" + options.path, "SameSite=" + SameSiteText(options.sameSite)]
    + (if options.httpOnly then ["HttpOnly"] else [])
    + (if options.secure then ["Secure"] else [])
  }

  function NameValue(name: string, value: string): string {
    name + "=" + EncodeURIComponent(value)
  }

  method SerializeCookie(name: string, value: string, options: CookieOptions) returns (cookie: string)
    ensures cookie == Join([NameValue(name, value)] + Attributes(options), "; ")
  {
    var parts := [name + "=" + EncodeURIComponent(value), "Max-Age=" + Decimal.Format(options.maxAge),
                  "Path=" + options.path, "SameSite=" + SameSiteText(options.sameSite)];
    if options.httpOnly { parts := parts + ["HttpOnly"]; }
    if options.secure { parts := parts + ["Secure"]; }
    assert parts == [NameValue(name, value)] + Attributes(options);
    cookie := Join(parts, "; ");
  }

  // ----- a browser between the two -----

  /** What a user agent keeps of a Set-Cookie text: everything before the first `;` (section 5.2 of RFC 6265). */
  function Kept(setCookie: string): string {
    Split(setCookie, ';')[0]
  }

  datatype Cookie = Cookie(name: string, value: string)

  /** The Cookie header of a jar: pairs joined by `; ` (section 4.2.1). */
  function Header(jar: seq<Cookie>): string {
    Join(Pairs(jar), "; ")
  }

  function Pairs(jar: seq<Cookie>): seq<string> {
    seq(|jar|, i requires 0 <= i < |jar| => NameValue(jar[i].name, jar[i].value))
  }

  /** A name that survives the reader: no separator, and no space at either end. Every RFC 6265 token is one. */
  predicate IsName(name: string) {
    name != "" && ';' !in name && '=' !in name && !IsSpace(name[0]) && !IsSpace(name[|name| - 1])
  }

  predicate IsJar(jar: seq<Cookie>) {
    && (forall i :: 0 <= i < |jar| ==> IsName(jar[i].name))
    && (forall i, j :: 0 <= i < j < |jar| ==> jar[i].name != jar[j].name)
  }

  /** Characters an encoded value can hold. */
  predicate IsSafe(c: char) {
    IsUnreserved(c) || c == '%'
  }

  lemma {:induction false} OctetsSafe(b: seq<Byte>)
    ensures forall k :: 0 <= k < |Octets(b)| ==> IsSafe(Octets(b)[k])
  {
    if b != [] {
      OctetsSafe(b[1..]);
      var o := Octet(b[0]);
      assert IsSafe(o[0]) && IsSafe(o[1]) && IsSafe(o[2]);
    }
  }

  lemma {:induction false} EncodedSafe(s: string)
    ensures forall k :: 0 <= k < |EncodeURIComponent(s)| ==> IsSafe(EncodeURIComponent(s)[k])
  {
    if s != [] {
      EncodedSafe(s[1..]);
      OctetsSafe(EncodeChar(s[0]));
    }
  }

  /** A pair holds no `;`, no space at an end, and exactly the `=` between name and value. */
  lemma PairShape(name: string, value: string)
    requires IsName(name)
    ensures var p := NameValue(name, value);
      && ';' !in p && Trim(p) == p && Trim(" " + p) == p
      && Split(p, '=') == [name, EncodeURIComponent(value)]
  {
    var e, p := EncodeURIComponent(value), NameValue(name, value);
    EncodedSafe(value);
    hide EncodeURIComponent;
    assert ';' !in e && '=' !in e;
    assert p[0] == name[0];
    assert !IsSpace(p[|p| - 1]);
    assert TrimStart(p) == p && TrimEnd(p) == p;
    assert (" " + p)[1..] == p;
    SplitWhole(e, '=');
    SplitFirst(name, '=', e);
    assert p == name + ['='] + e;
  }

  lemma PairIsRead(cookie: string, name: string, value: string)
    requires IsName(name) && (cookie == NameValue(name, value) || cookie == " " + NameValue(name, value))
    ensures KeyOf(cookie) == name && DecodeURIComponent(RawValueOf(cookie)) == Some(value)
  {
    hide EncodeURIComponent, DecodeURIComponent, Split, Trim, IsName, NameValue;
    PairShape(name, value);
    assert [name, EncodeURIComponent(value)][1..] == [EncodeURIComponent(value)];
    PercentRoundTrip(value);
  }

  lemma HeaderCons(jar: seq<Cookie>)
    requires jar != []
    ensures var first := NameValue(jar[0].name, jar[0].value);
      && Pairs(jar) == [first] + Pairs(jar[1..])
      && Header(jar) == if |jar| == 1 then first else first + [';'] + (" " + Header(jar[1..]))
  {
    hide NameValue;
    assert Pairs(jar)[1..] == Pairs(jar[1..]);
  }

  /** Cutting the header at `;` leaves a space before every pair but the first. */
  lemma {:induction false} HeaderSplit(jar: seq<Cookie>)
    requires IsJar(jar) && jar != []
    ensures var parts := Split(Header(jar), ';');
      |parts| == |jar| && parts[0] == Pairs(jar)[0] && forall i :: 1 <= i < |jar| ==> parts[i] == " " + Pairs(jar)[i]
  {
    hide Split, NameValue, IsName, Header, Pairs, Trim;
    PairShape(jar[0].name, jar[0].value);
    HeaderCons(jar);
    var first := NameValue(jar[0].name, jar[0].value);
    if |jar| == 1 {
      SplitWhole(first, ';');
    } else {
      HeaderSplit(jar[1..]);
      var rest := Header(jar[1..]);
      SplitFirst(first, ';', " " + rest);
      SplitSpace(rest);
    }
  }

  lemma SplitSpace(s: string)
    ensures Split(" " + s, ';') == [" " + Split(s, ';')[0]] + Split(s, ';')[1..]
  {
    assert (" " + s)[1..] == s;
    var k := IndexOf(s, ';');
    assert IndexOf(" " + s, ';') == k + 1;
    if k < |s| {
      assert (" " + s)[..k + 1] == " " + s[..k] && (" " + s)[k + 2..] == s[k + 1..];
    }
  }

  /** The value stored under a name, if the jar has it. */
  function ValueIn(jar: seq<Cookie>, name: string): Option<string> {
    if jar == [] then None
    else if jar[0].name == name then Some(jar[0].value)
    else ValueIn(jar[1..], name)
  }

  lemma {:induction false} LookupInParts(parts: seq<string>, jar: seq<Cookie>, name: string)
    requires IsJar(jar) && |parts| == |jar|
    requires forall i :: 0 <= i < |jar| ==>
               var p := NameValue(jar[i].name, jar[i].value); parts[i] == p || parts[i] == " " + p
    ensures Lookup(parts, name) == ValueIn(jar, name)
  {
    hide NameValue, KeyOf, RawValueOf, DecodeURIComponent, IsName;
    if jar != [] {
      PairIsRead(parts[0], jar[0].name, jar[0].value);
      LookupInParts(parts[1..], jar[1..], name);
    }
  }

  /**
   Reading a jar's header gives back every value that went in, and nothing for an absent name.
   The one exception: an empty header reads as a nameless cookie with an empty value.
  */
  lemma JarRoundTrip(jar: seq<Cookie>, name: string)
    requires IsJar(jar)
    ensures Lookup(Split(Header(jar), ';'), name) == ValueIn(jar, name) <==> !(jar == [] && name == "")
  {
    if jar == [] {
      assert Split("", ';') == [""];
      assert KeyOf("") == "" && RawValueOf("") == "";
    } else {
      HeaderSplit(jar);
      LookupInParts(Split(Header(jar), ';'), jar, name);
    }
  }

  lemma {:induction false} ValueInJar(jar: seq<Cookie>, name: string)
    requires IsJar(jar)
    ensures forall i :: 0 <= i < |jar| && jar[i].name == name ==> ValueIn(jar, name) == Some(jar[i].value)
    ensures (forall i :: 0 <= i < |jar| ==> jar[i].name != name) ==> ValueIn(jar, name) == None
  {
    if jar != [] {
      ValueInJar(jar[1..], name);
      forall i | 1 <= i < |jar| && jar[i].name == name
        ensures ValueIn(jar, name) == Some(jar[i].value)
      {
        assert jar[1..][i - 1] == jar[i];
      }
    }
  }

  /** What is sent is kept whole: the pair has no `;`, whatever the value. */
  lemma KeptIsPair(name: string, value: string, options: CookieOptions)
    requires IsName(name)
    ensures Kept(Join([NameValue(name, value)] + Attributes(options), "; ")) == NameValue(name, value)
  {
    PairShape(name, value);
    hide NameValue, Split, IsName;
    var p, a := NameValue(name, value), Attributes(options);
    assert ([p] + a)[1..] == a;
    assert Join([p] + a, "; ") == p + [';'] + (" " + Join(a, "; "));
    SplitFirst(p, ';', " " + Join(a, "; "));
  }

  // ----- what the encoding and the attributes look like -----

  /** Letters, digits and nine marks stay; every other character becomes its UTF-8 bytes in upper-case hexadecimal. */
  lemma EscapeMeans(c: char)
    ensures EscapeChar(c) == [c] <==>
            'A' <= c <= 'Z' || 'a' <= c <= 'z' || '0' <= c <= '9' || c in {'-', '_', '.', '!', '~', '*', '\'', '(', ')'}
    ensures EscapeChar(c) != [c] ==>
              && |EscapeChar(c)| == 3 * |EncodeChar(c)|
              && forall k :: 0 <= k < |EncodeChar(c)| ==>
                   && EscapeChar(c)[3 * k] == '%'
                   && EscapeChar(c)[3 * k + 1] == "0123456789ABCDEF"[EncodeChar(c)[k] / 16]
                   && EscapeChar(c)[3 * k + 2] == "0123456789ABCDEF"[EncodeChar(c)[k] % 16]
  {
    var b := EncodeChar(c);
    if !IsUnreserved(c) {
      forall k | 0 <= k < |b|
        ensures Octets(b)[3 * k] == '%' && Octets(b)[3 * k + 1] == "0123456789ABCDEF"[b[k] / 16]
        ensures Octets(b)[3 * k + 2] == "0123456789ABCDEF"[b[k] % 16]
      {
        OctetsMean(b, k);
      }
    }
  }

  lemma HexMeans(d: int)
    requires 0 <= d < 16
    ensures HexDigit(d) == "0123456789ABCDEF"[d]
  {
  }

  lemma {:induction false} OctetsMean(b: seq<Byte>, k: nat)
    requires k < |b|
    ensures Octets(b)[3 * k] == '%' && Octets(b)[3 * k + 1] == "0123456789ABCDEF"[b[k] / 16]
    ensures Octets(b)[3 * k + 2] == "0123456789ABCDEF"[b[k] % 16]
  {
    if k == 0 {
      HexMeans(b[0] / 16);
      HexMeans(b[0] % 16);
    } else {
      OctetsMean(b[1..], k - 1);
      assert Octets(b) == Octet(b[0]) + Octets(b[1..]);
    }
  }

  /** The attributes of a sent cookie: lifetime, path and site policy always, the two flags as asked for. */
  lemma AttributesMean(options: CookieOptions)
    ensures var a := Attributes(options);
      && |a| >= 3 && a[0] == "Max-Age=" + Decimal.Format(options.maxAge) && a[1] == "Path=" + options.path
      && a[2] == "SameSite=" + (match options.sameSite
                                case Lax => "Lax" case Strict => "Strict" case Unrestricted => "None")
      && a[3..] == (if options.httpOnly && options.secure then ["HttpOnly", "Secure"]
                    else if options.httpOnly then ["HttpOnly"]
                    else if options.secure then ["Secure"] else [])
  {
  }

  /** The first piece with the name decides, and other pieces are passed over. */
  lemma FirstPieceDecides(cookies: seq<string>, name: string, i: nat)
    requires i < |cookies| && KeyOf(cookies[i]) == name && forall j :: 0 <= j < i ==> KeyOf(cookies[j]) != name
    ensures Lookup(cookies, name) == DecodeURIComponent(RawValueOf(cookies[i]))
    decreases i
  {
    hide KeyOf, RawValueOf, DecodeURIComponent;
    if i > 0 {
      FirstPieceDecides(cookies[1..], name, i - 1);
    }
  }

  /** Spaces around a piece, and further equals signs in a value, are no part of the name. */
  lemma PieceMeans(name: string, raw: string)
    requires '=' !in name && Trim(name + "=" + raw) == name + "=" + raw
    ensures KeyOf(name + "=" + raw) == name
    ensures RawValueOf(name + "=" + raw) == raw
  {
    hide Trim;
    assert name + "=" + raw == name + ['='] + raw;
    SplitFirst(name, '=', raw);
    SplitMeans(raw, '=');
    assert ['='] == "=";
  }
}
