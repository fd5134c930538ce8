/** The signed state of the GitHub web login (src/auth/github-oauth.ts). */
module OAuthState {
  import opened Options
  import opened Utf8
  import opened Base64Url
  import Text
  import opened Security

  datatype Payload = Payload(nonce: string, returnTo: string, exp: int)

  /**
   What the platform supplies. `parse` is `JSON.parse` followed by the three type tests:
   None for text that does not parse to such an object.
  */
  datatype Platform = Platform(
    stringify: Payload -> string,
    parse: string -> Option<Payload>,
    hmac: (string, string) -> seq<Byte>,
    sha256: string -> Digest,
    normalizeReturnTo: string -> string)
  {
    /** Parsing undoes printing on this payload, which prints as `{...}`, and a MAC is not empty. */
    ghost predicate Lawful(payload: Payload) {
      && parse(stringify(payload)) == Some(payload)
      && stringify(payload) != "" && stringify(payload)[0] == '{'
      && forall k, v :: hmac(k, v) != []
    }
  }

  datatype Outcome<+T> = Ok(value: T) | NotConfigured

  function EncodeText(value: string): string {
    EncodeBinary(Latin1(Encode(value)))
  }

  /** None where `atob` throws. */
  function DecodeText(value: string): Option<string> {
    match DecodeBinary(value)
    case None => None
    case Some(binary) => Some(TextDecode(Bytes(binary)))
  }

  function Signature(pf: Platform, secret: string, encoded: string): string {
    EncodeBinary(Latin1(pf.hmac(secret, encoded)))
  }

  /** A missing or empty client secret makes both directions throw. */
  function Sign(pf: Platform, secret: Option<string>, payload: Payload): Outcome<string> {
    if secret.None? || secret.value == "" then NotConfigured
    else
      var encoded := EncodeText(pf.stringify(payload));
      Ok(encoded + ['.'] + Signature(pf, secret.value, encoded))
  }

  function ParsePayload(pf: Platform, encoded: string): Option<Payload> {
    match DecodeText(encoded)
    case None => None
    case Some(text) => pf.parse(text)
  }

  function Verify(pf: Platform, secret: Option<string>, state: string, nowMs: nat): Outcome<Option<Payload>> {
    var parts := Text.Split(state, '.');
    VerifyFields(pf, secret, parts[0], if |parts| > 1 then parts[1] else "", nowMs)
  }

  function VerifyFields(pf: Platform, secret: Option<string>, encoded: string, signature: string, nowMs: nat)
    : Outcome<Option<Payload>>
  {
    if encoded == "" || signature == "" then Ok(None)
    else if secret.None? || secret.value == "" then NotConfigured
    else if !SafeEqual(pf.sha256, Some(signature), Some(Signature(pf, secret.value, encoded))) then Ok(None)
    else
      match ParsePayload(pf, encoded)
      case None => Ok(None)
      case Some(payload) =>
        if payload.exp < nowMs / 1000 then Ok(None)
        else Ok(Some(payload.(returnTo := pf.normalizeReturnTo(payload.returnTo))))
  }

  /** Text survives the encoding exactly when `TextDecoder` finds no byte order mark to drop. */
  lemma TextSurvives(value: string)
    ensures DecodeText(EncodeText(value)) == Some(value) <==> !(value != "" && value[0] == BOM)
  {
    var binary := Latin1(Encode(value));
    DecodeEncode(binary);
    assert Bytes(binary) == Encode(value);
    TextRoundTrip(value);
  }

  /** An encoding never holds the separator, and is empty only for the empty input. */
  lemma EncodingHasNoDot(binary: Binary)
    ensures '.' !in EncodeBinary(binary) && (binary != "" ==> EncodeBinary(binary) != "")
  {
    EncodingIsUnpadded(binary);
  }

  lemma EncodeNotEmpty(value: string)
    ensures value != "" ==> Encode(value) != []
  {
  }

  /** A fresh state verifies under its own secret exactly until it expires, and gives back nonce and expiry. */
  lemma VerifySigned(pf: Platform, secret: string, payload: Payload, nowMs: nat)
    requires pf.Lawful(payload) && secret != ""
    ensures Sign(pf, Some(secret), payload).Ok?
    ensures Verify(pf, Some(secret), Sign(pf, Some(secret), payload).value, nowMs)
            == Ok(if nowMs / 1000 <= payload.exp
                  then Some(Payload(payload.nonce, pf.normalizeReturnTo(payload.returnTo), payload.exp))
                  else None)
  {
    var text := pf.stringify(payload);
    var encoded := EncodeText(text);
    var signature := Signature(pf, secret, encoded);
    hide Encode, EncodeBinary, Latin1, DecodeBinary, TextDecode;
    TextSurvives(text);
    EncodeNotEmpty(text);
    EncodingHasNoDot(Latin1(Encode(text)));
    EncodingHasNoDot(Latin1(pf.hmac(secret, encoded)));
    assert '.' !in encoded && encoded != "" && '.' !in signature && signature != "";
    assert ParsePayload(pf, encoded) == Some(payload);
    hide EncodeText, DecodeText, Signature, ParsePayload;
    Text.SplitFirst(encoded, '.', signature);
    Text.SplitWhole(signature, '.');
    assert Text.Split(encoded + ['.'] + signature, '.') == [encoded, signature];
  }

  /** A state without the separator has no signature. */
  lemma NoSignature(pf: Platform, secret: Option<string>, state: string, nowMs: nat)
    requires '.' !in state
    ensures Verify(pf, secret, state, nowMs) == Ok(None)
  {
    Text.SplitWhole(state, '.');
  }

  /** What the first field says, if anything. */
  ghost predicate Says(pf: Platform, encoded: string, payload: Payload) {
    DecodeText(encoded).Some? && pf.parse(DecodeText(encoded).value) == Some(payload)
  }

  /** The second field is a text with the digest of the right signature. */
  predicate Signed(pf: Platform, secret: string, encoded: string, signature: string) {
    var expected := EncodeBinary(Latin1(pf.hmac(secret, encoded)));
    signature != "" && expected != "" && pf.sha256(signature) == pf.sha256(expected)
  }

  /**
   A state is accepted exactly when its first field is signed by the second and says a payload that is not past;
   what it yields is that payload with the return address normalised. A missing secret makes it throw.
  */
  lemma AcceptedExactly(pf: Platform, secret: Option<string>, encoded: string, signature: string, nowMs: nat,
                        p: Payload)
    requires '.' !in encoded && '.' !in signature
    ensures var r := Verify(pf, secret, encoded + ['.'] + signature, nowMs);
      && (r.NotConfigured? <==> encoded != "" && signature != "" && (secret.None? || secret.value == ""))
      && (r == Ok(Some(p)) <==>
            && secret.Some? && secret.value != "" && encoded != "" && Signed(pf, secret.value, encoded, signature)
            && exists q :: Says(pf, encoded, q) && nowMs / 1000 <= q.exp
                           && p == Payload(q.nonce, pf.normalizeReturnTo(q.returnTo), q.exp))
  {
    hide DecodeText, EncodeBinary, Latin1;
    Text.SplitFirst(encoded, '.', signature);
    Text.SplitWhole(signature, '.');
    assert Text.Split(encoded + ['.'] + signature, '.') == [encoded, signature];
    assert forall q :: Says(pf, encoded, q) <==> ParsePayload(pf, encoded) == Some(q);
  }

  /** Where the digest tells the two texts apart, only the first field's own signature is accepted. */
  lemma OnlyOwnSignature(pf: Platform, secret: string, encoded: string, signature: string, nowMs: nat)
    requires '.' !in encoded && '.' !in signature && secret != ""
    requires var own := EncodeBinary(Latin1(pf.hmac(secret, encoded)));
      pf.sha256(signature) == pf.sha256(own) ==> signature == own
    requires Verify(pf, Some(secret), encoded + ['.'] + signature, nowMs).Ok?
    requires Verify(pf, Some(secret), encoded + ['.'] + signature, nowMs).value.Some?
    ensures signature == EncodeBinary(Latin1(pf.hmac(secret, encoded)))
  {
    hide EncodeBinary, Latin1, Verify, Says;
    AcceptedExactly(pf, Some(secret), encoded, signature, nowMs,
                    Verify(pf, Some(secret), encoded + ['.'] + signature, nowMs).value.value);
  }

  /** Only the first two dot-separated fields are looked at. */
  lemma TrailingFieldsIgnored(pf: Platform, secret: Option<string>, a: string, b: string, rest: string, nowMs: nat)
    requires '.' !in a && '.' !in b
    ensures Verify(pf, secret, a + ['.'] + b + ['.'] + rest, nowMs) == Verify(pf, secret, a + ['.'] + b, nowMs)
  {
    hide VerifyFields, Text.Split;
    Text.SplitFirst(a, '.', b);
    Text.SplitWhole(b, '.');
    Text.SplitFirst(b, '.', rest);
    Text.SplitFirst(a, '.', b + ['.'] + rest);
    assert a + ['.'] + (b + ['.'] + rest) == a + ['.'] + b + ['.'] + rest;
  }
}
