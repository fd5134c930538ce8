/** Comparison of secrets (src/auth/security.ts). */
module Security {
  import opened Options

  /** A SHA-256 digest. */
  type Digest = d: seq<bv8> | |d| == 32 witness seq(32, _ => 0)

  /** What `timingSafeEqual` decides: both present, and equal digests. */
  predicate SafeEqual(sha256: string -> Digest, actual: Option<string>, expected: Option<string>) {
    actual.Some? && actual.value != "" && expected.Some? && expected.value != ""
    && sha256(actual.value) == sha256(expected.value)
  }

  /** The accumulator is zero exactly when no byte so far differs. */
  lemma OrXorZero(diff: bv8, a: bv8, b: bv8)
    ensures diff | (a ^ b) == 0 <==> diff == 0 && a == b
  {
  }

  method TimingSafeEqual(sha256: string -> Digest, actual: Option<string>, expected: Option<string>)
    returns (equal: bool)
    ensures equal <==> SafeEqual(sha256, actual, expected)
  {
    if actual.None? || actual.value == "" || expected.None? || expected.value == "" {
      return false;
    }
    var left, right := sha256(actual.value), sha256(expected.value);
    var diff: bv8 := (|left| as bv8) ^ (|right| as bv8);
    var length := if |left| < |right| then |left| else |right|;
    for index := 0 to length
      invariant diff == 0 <==> left[..index] == right[..index]
    {
      OrXorZero(diff, left[index], right[index]);
      diff := diff | (left[index] ^ right[index]);
      assert left[..index + 1] == left[..index] + [left[index]];
      assert right[..index + 1] == right[..index] + [right[index]];
    }
    assert left[..length] == left && right[..length] == right;
    return diff == 0;
  }
}
