/** Token recognition of the POSIX.1-2017 Shell Command Language (sections 2.2.1, 2.2.2, 2.2.3 and 2.3). */
module PosixShell {
  import opened Text

  datatype Token = Word(text: string) | Operator(symbol: string)

  /**
   What the shell makes of an input. `Unterminated` is an open quotation, and `Expanding`
   an input in which the shell would go on to expand, glob or substitute something: double
   quotes, `$`, a back-quote, or an unquoted pattern or tilde character.
  */
  datatype Reading = Tokens(tokens: seq<Token>) | Unterminated | Expanding

  /** The word being built, if any: rule 10 of section 2.3 starts one, rule 7 ends it. */
  datatype Partial = NoWord | InWord(text: string)

  function TextOf(p: Partial): string {
    if p.NoWord? then "" else p.text
  }

  predicate IsBlank(c: char) {
    c == ' ' || c == '\t'
  }

  predicate Expands(c: char) {
    c in "\"$`*?[~"
  }

  /** Operators of section 2.10.1, longest first (rule 2 of section 2.3). */
  const OPERATORS: seq<string> :=
    ["<<-", "&&", "||", ";;", "<<", ">>", "<&", ">&", "<>", ">|", "&", "|", ";", "<", ">", "(", ")", "\n"]

  function OperatorIn(s: string, candidates: seq<string>): (op: string)
    ensures op <= s && (op == [] || op in candidates)
  {
    if candidates == [] then []
    else if candidates[0] <= s then candidates[0]
    else OperatorIn(s, candidates[1..])
  }

  function OperatorAt(s: string): string {
    OperatorIn(s, OPERATORS)
  }

  function Prepend(ts: seq<Token>, r: Reading): Reading {
    if r.Tokens? then Tokens(ts + r.tokens) else r
  }

  function Close(p: Partial): seq<Token> {
    if p.NoWord? then [] else [Word(p.text)]
  }

  function Scan(s: string, p: Partial): Reading
    decreases |s|
  {
    if s == [] then Tokens(Close(p))
    else if s[0] == '\'' then
      // 2.2.2: everything up to the next single-quote is literal
      var k := IndexOf(s[1..], '\'');
      if k == |s[1..]| then Unterminated
      else Scan(s[1..][k + 1..], InWord(TextOf(p) + s[1..][..k]))
    else if s[0] == '\\' then
      // 2.2.1: the next character is literal, and an escaped newline disappears
      if |s| == 1 then Unterminated
      else if s[1] == '\n' then Scan(s[2..], p)
      else Scan(s[2..], InWord(TextOf(p) + [s[1]]))
    else if Expands(s[0]) then Expanding
    else if OperatorAt(s) != [] then
      Prepend(Close(p) + [Operator(OperatorAt(s))], Scan(s[|OperatorAt(s)|..], NoWord))
    else if IsBlank(s[0]) then Prepend(Close(p), Scan(s[1..], NoWord))
    else if s[0] == '#' && p.NoWord? then
      Scan(s[IndexOf(s, '\n')..], NoWord)
    else Scan(s[1..], InWord(TextOf(p) + [s[0]]))
  }

  function Read(s: string): Reading {
    Scan(s, NoWord)
  }

  /** The characters the templates write bare; none has a meaning to the shell wherever it stands. */
  predicate IsOrdinary(c: char) {
    'a' <= c <= 'z' || 'A' <= c <= 'Z' || '0' <= c <= '9' || c == '-'
  }

  predicate Ordinary(s: string) {
    forall k :: 0 <= k < |s| ==> IsOrdinary(s[k])
  }

  lemma NoOperator(s: string)
    requires s != [] && (IsOrdinary(s[0]) || IsBlank(s[0]))
    ensures OperatorAt(s) == []
  {
    OperatorStart(s, OPERATORS);
  }

  lemma OperatorStart(s: string, candidates: seq<string>)
    requires s != []
    requires forall i :: 0 <= i < |candidates| ==> candidates[i] != [] && candidates[i][0] != s[0]
    ensures OperatorIn(s, candidates) == []
  {
    if candidates != [] {
      OperatorStart(s, candidates[1..]);
    }
  }

  lemma ScanOne(s: string, p: Partial)
    requires s != [] && IsOrdinary(s[0])
    ensures Scan(s, p) == Scan(s[1..], InWord(TextOf(p) + [s[0]]))
  {
    hide OperatorAt;
    NoOperator(s);
    assert !Expands(s[0]);
  }

  /** Ordinary text extends the current word and nothing else. */
  lemma {:induction false} ScanOrdinary(text: string, rest: string, p: Partial)
    requires text != [] && Ordinary(text)
    ensures Scan(text + rest, p) == Scan(rest, InWord(TextOf(p) + text))
    decreases |text|
  {
    hide Scan;
    var q := InWord(TextOf(p) + [text[0]]);
    ScanOne(text + rest, p);
    assert (text + rest)[1..] == text[1..] + rest;
    if |text| == 1 {
      assert text[1..] + rest == rest;
      assert text == [text[0]];
    } else {
      ScanOrdinary(text[1..], rest, q);
      assert TextOf(q) + text[1..] == TextOf(p) + text;
    }
  }

  lemma ScanBlank(rest: string, w: string)
    ensures Scan(" " + rest, InWord(w)) == Prepend([Word(w)], Scan(rest, NoWord))
  {
    NoOperator(" " + rest);
    assert (" " + rest)[1..] == rest;
  }
}
