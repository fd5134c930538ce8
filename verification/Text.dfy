/** The JavaScript string methods that several components use. */
module Text {

  /** Index of the first c in s, or |s|. */
  function IndexOf(s: string, c: char): (k: nat)
    ensures k <= |s| && (k < |s| ==> s[k] == c) && c !in s[..k]
  {
    if s == [] || s[0] == c then 0 else 1 + IndexOf(s[1..], c)
  }

  /** Lower case on ASCII letters: `lower` of SQLite, and `toLowerCase` on the alphabet of GitHub logins. */
  function AsciiLower(s: string): (r: string)
    ensures |r| == |s|
  {
    seq(|s|, i requires 0 <= i < |s| => if 'A' <= s[i] <= 'Z' then s[i] - 'A' + 'a' else s[i])
  }

  /** `s.split(sep)` for a one-character separator: never empty. */
  function Split(s: string, sep: char): (parts: seq<string>)
    ensures parts != []
    decreases |s|
  {
    var k := IndexOf(s, sep);
    if k == |s| then [s] else [s[..k]] + Split(s[k + 1..], sep)
  }

  function Join(parts: seq<string>, sep: string): string {
    if parts == [] then ""
    else if |parts| == 1 then parts[0]
    else parts[0] + sep + Join(parts[1..], sep)
  }

  lemma {:induction false} IndexOfFirst(a: string, c: char, rest: string)
    requires c !in a
    ensures IndexOf(a + [c] + rest, c) == |a|
  {
    if a != [] {
      assert (a + [c] + rest)[1..] == a[1..] + [c] + rest;
      IndexOfFirst(a[1..], c, rest);
    }
  }

  lemma {:induction false} IndexOfAbsent(s: string, c: char)
    ensures IndexOf(s, c) == |s| <==> c !in s
  {
    if IndexOf(s, c) == |s| {
      assert s[..|s|] == s;
    } else {
      assert s[IndexOf(s, c)] in s;
    }
  }

  lemma SplitWhole(s: string, sep: char)
    requires sep !in s
    ensures Split(s, sep) == [s]
  {
    IndexOfAbsent(s, sep);
  }

  /** Splitting `a`, the separator and the rest gives `a` and then the parts of the rest. */
  lemma SplitFirst(a: string, sep: char, rest: string)
    requires sep !in a
    ensures Split(a + [sep] + rest, sep) == [a] + Split(rest, sep)
  {
    IndexOfFirst(a, sep, rest);
    assert (a + [sep] + rest)[..|a|] == a && (a + [sep] + rest)[|a| + 1..] == rest;
  }

  /** WhiteSpace and LineTerminator of ECMAScript, which `trim` removes. */
  predicate IsSpace(c: char) {
    || '\t' <= c <= '\r' || c == ' ' || c == '\U{A0}' || c == '\U{1680}'
    || '\U{2000}' <= c <= '\U{200A}' || c == '\U{2028}' || c == '\U{2029}'
    || c == '\U{202F}' || c == '\U{205F}' || c == '\U{3000}' || c == '\U{FEFF}'
  }

  function TrimStart(s: string): string {
    if s != [] && IsSpace(s[0]) then TrimStart(s[1..]) else s
  }

  function TrimEnd(s: string): string {
    if s != [] && IsSpace(s[|s| - 1]) then TrimEnd(s[..|s| - 1]) else s
  }

  function Trim(s: string): string {
    TrimEnd(TrimStart(s))
  }

  /** Trimming takes spaces off both ends, and all of them. */
  lemma {:induction false} TrimMeans(s: string)
    ensures exists a, b ::
              s == a + Trim(s) + b && (forall c :: c in a ==> IsSpace(c)) && forall c :: c in b ==> IsSpace(c)
    ensures Trim(s) != "" ==> !IsSpace(Trim(s)[0]) && !IsSpace(Trim(s)[|Trim(s)| - 1])
  {
    var a := StartMeans(s);
    var b := EndMeans(TrimStart(s));
    assert s == a + Trim(s) + b;
    if Trim(s) != "" {
      assert TrimStart(s) == Trim(s) + b;
    }
  }

  lemma {:induction false} StartMeans(s: string) returns (a: string)
    ensures s == a + TrimStart(s) && forall c :: c in a ==> IsSpace(c)
    ensures TrimStart(s) != "" ==> !IsSpace(TrimStart(s)[0])
  {
    if s != "" && IsSpace(s[0]) {
      var rest := StartMeans(s[1..]);
      a := [s[0]] + rest;
      assert s == [s[0]] + s[1..];
    } else {
      a := "";
    }
  }

  lemma {:induction false} EndMeans(s: string) returns (b: string)
    ensures s == TrimEnd(s) + b && forall c :: c in b ==> IsSpace(c)
    ensures TrimEnd(s) != "" ==> !IsSpace(TrimEnd(s)[|TrimEnd(s)| - 1])
  {
    if s != "" && IsSpace(s[|s| - 1]) {
      var rest := EndMeans(s[..|s| - 1]);
      b := rest + [s[|s| - 1]];
      assert s == s[..|s| - 1] + [s[|s| - 1]];
    } else {
      b := "";
    }
  }

  /** The pieces joined by the separator are the text, and none of them holds it. */
  lemma {:induction false} SplitMeans(s: string, sep: char)
    ensures Join(Split(s, sep), [sep]) == s && forall part :: part in Split(s, sep) ==> sep !in part
    decreases |s|
  {
    var k := IndexOf(s, sep);
    if k < |s| {
      var rest := s[k + 1..];
      SplitMeans(rest, sep);
      assert Split(s, sep)[1..] == Split(rest, sep);
      assert s == s[..k] + [sep] + rest;
    } else {
      IndexOfAbsent(s, sep);
    }
  }
}
