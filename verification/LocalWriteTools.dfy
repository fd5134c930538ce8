/**
 The command strings that the MCP write tools hand to the miner's own shell (src/mcp/local-write-tools.ts),
 and what that shell reads.
*/
module LocalWriteTools {
  import opened Options
  import opened PosixShell
  import opened Text
  import Decimal

  /** `value.replace(/'/g, "'\\''")`. */
  function EscapeQuotes(value: string): string {
    if value == [] then ""
    else (if value[0] == '\'' then "'\\''" else [value[0]]) + EscapeQuotes(value[1..])
  }

  /** POSIX single-quoting of an arbitrary string. */
  function Sq(value: string): string {
    "'" + EscapeQuotes(value) + "'"
  }

  // ----- quoting is inverted by the shell -----

  lemma {:induction false} EscapePrefix(text: string, rest: string)
    requires '\'' !in text
    ensures EscapeQuotes(text + rest) == text + EscapeQuotes(rest)
  {
    if text == [] {
      assert text + rest == rest;
    } else {
      assert (text + rest)[1..] == text[1..] + rest;
      EscapePrefix(text[1..], rest);
      assert text == [text[0]] + text[1..];
    }
  }

  lemma ScanQuoted(text: string, rest: string, p: Partial)
    requires '\'' !in text
    ensures Scan("'" + text + "'" + rest, p) == Scan(rest, InWord(TextOf(p) + text))
  {
    IndexOfFirst(text, '\'', rest);
    var s := "'" + text + "'" + rest;
    assert s[1..] == text + "'" + rest;
    assert s[1..][..|text|] == text && s[1..][|text| + 1..] == rest;
  }

  lemma Regroup(q: string, text: string, m: string, rest: string)
    ensures q + (text + (q + m + q + rest)) + q == q + text + q + m + (q + rest + q)
  {
  }

  /** The quoted form up to and including the first embedded quote. */
  lemma SqSplit(text: string, rest: string)
    requires '\'' !in text
    ensures Sq(text) == "'" + text + "'"
    ensures Sq(text + "'" + rest) == "'" + text + "'" + "\\'" + Sq(rest)
  {
    EscapePrefix(text, "");
    assert text + "" == text;
    var q := "'" + rest;
    EscapePrefix(text, q);
    assert EscapeQuotes(q) == "'\\''" + EscapeQuotes(rest) by { assert q[1..] == rest; }
    hide EscapeQuotes;
    assert text + "'" + rest == text + q;
    assert "'\\''" == "'" + "\\'" + "'";
    Regroup("'", text, "\\'", EscapeQuotes(rest));
  }

  lemma ScanEscape(rest: string, p: Partial)
    ensures Scan("\\'" + rest, p) == Scan(rest, InWord(TextOf(p) + "'"))
  {
    assert ("\\'" + rest)[2..] == rest;
  }

  /** Whatever `value` holds, its quoted form adds exactly `value` to the word being read. */
  lemma {:induction false} SqIsLiteral(value: string, rest: string, p: Partial)
    ensures Scan(Sq(value) + rest, p) == Scan(rest, InWord(TextOf(p) + value))
    decreases |value|
  {
    hide Scan, Sq;
    var k := IndexOf(value, '\'');
    if k == |value| {
      assert value[..k] == value;
      SqSplit(value, "");
      ScanQuoted(value, rest, p);
    } else {
      var a, b := value[..k], value[k + 1..];
      assert value == a + "'" + b;
      SqSplit(a, b);
      var tail := Sq(b) + rest;
      assert Sq(value) + rest == "'" + a + "'" + ("\\'" + tail);
      ScanQuoted(a, "\\'" + tail, p);
      ScanEscape(tail, InWord(TextOf(p) + a));
      SqIsLiteral(b, rest, InWord(TextOf(p) + a + "'"));
      assert TextOf(p) + a + "'" + b == TextOf(p) + value;
    }
  }

  // ----- whole commands -----

  /** One intended argument: program text written bare, or a caller's string written quoted. */
  datatype Arg = Bare(text: string) | Quoted(text: string)

  function Show(a: Arg): string {
    if a.Bare? then a.text else Sq(a.text)
  }

  function Render(args: seq<Arg>): string
    requires args != []
  {
    if |args| == 1 then Show(args[0]) else Show(args[0]) + " " + Render(args[1..])
  }

  function Words(args: seq<Arg>): seq<Token> {
    seq(|args|, i requires 0 <= i < |args| => Word(args[i].text))
  }

  predicate Printable(args: seq<Arg>) {
    forall i :: 0 <= i < |args| && args[i].Bare? ==> args[i].text != [] && Ordinary(args[i].text)
  }

  lemma ScanArg(a: Arg, rest: string)
    requires Printable([a])
    ensures Scan(Show(a) + rest, NoWord) == Scan(rest, InWord(a.text))
  {
    if a.Bare? {
      assert [a][0].text != [] && Ordinary([a][0].text);
      ScanOrdinary(a.text, rest, NoWord);
    } else {
      SqIsLiteral(a.text, rest, NoWord);
    }
    assert "" + a.text == a.text;
  }

  /** Rendered arguments read back as the same arguments, the last one still open. */
  lemma {:induction false} ScanRender(args: seq<Arg>, rest: string)
    requires args != [] && Printable(args)
    ensures Scan(Render(args) + rest, NoWord)
            == Prepend(Words(args[..|args| - 1]), Scan(rest, InWord(args[|args| - 1].text)))
    decreases |args|
  {
    hide Scan, Show;
    assert Printable([args[0]]);
    if |args| == 1 {
      ScanArg(args[0], rest);
      assert Words(args[..0]) == [];
    } else {
      var tail := Render(args[1..]) + rest;
      assert Render(args) + rest == Show(args[0]) + (" " + tail);
      ScanArg(args[0], " " + tail);
      ScanBlank(tail, args[0].text);
      ScanRender(args[1..], rest);
      assert Words(args[..|args| - 1]) == [Word(args[0].text)] + Words(args[1..][..|args| - 2]);
    }
  }

  lemma ScanEnd(last: string)
    ensures Scan("", InWord(last)) == Tokens([Word(last)])
  {
  }

  lemma WordsLast(args: seq<Arg>)
    requires args != []
    ensures Words(args) == Words(args[..|args| - 1]) + [Word(args[|args| - 1].text)]
  {
  }

  lemma ReadRender(args: seq<Arg>)
    requires args != [] && Printable(args)
    ensures Read(Render(args)) == Tokens(Words(args))
  {
    hide Scan, Render, Printable;
    var last := args[|args| - 1].text;
    ScanEnd(last);
    ScanRender(args, "");
    assert Render(args) + "" == Render(args);
    WordsLast(args);
  }

  /** Two commands joined by the literal `&&` read as two lists around one operator. */
  lemma ReadAnd(left: seq<Arg>, right: seq<Arg>)
    requires left != [] && right != [] && Printable(left) && Printable(right)
    ensures Read(Render(left) + " && " + Render(right)) == Tokens(Words(left) + [Operator("&&")] + Words(right))
  {
    hide Scan, Render, OperatorAt;
    var after := Render(right);
    var last := left[|left| - 1].text;
    assert Render(left) + " && " + after == Render(left) + (" " + ("&& " + after));
    ScanRender(left, " " + ("&& " + after));
    ScanBlank("&& " + after, last);
    ReadAndIf(after);
    ReadRender(right);
    WordsLast(left);
  }

  lemma AndIfAt(rest: string)
    ensures OperatorAt("&&" + rest) == "&&"
  {
    var s, candidates := "&&" + rest, OPERATORS;
    assert s[0] == '&' && s[1] == '&';
    assert candidates[0][0] == '<';
    assert candidates[1..][0] == "&&";
    assert OperatorIn(s, candidates[1..]) == "&&";
  }

  lemma ReadAndIf(after: string)
    ensures Scan("&& " + after, NoWord) == Prepend([Operator("&&")], Scan(after, NoWord))
  {
    hide OperatorAt;
    var s := "&& " + after;
    assert s == "&&" + (" " + after);
    AndIfAt(" " + after);
    assert s[2..] == " " + after;
    NoOperator(" " + after);
    assert (" " + after)[1..] == after;
    assert Scan(" " + after, NoWord) == Prepend([], Scan(after, NoWord));
  }

  lemma {:induction false} RenderConcat(a: seq<Arg>, b: seq<Arg>)
    requires a != [] && b != []
    ensures Render(a + b) == Render(a) + " " + Render(b)
  {
    if |a| > 1 {
      assert (a + b)[1..] == a[1..] + b;
      RenderConcat(a[1..], b);
    } else {
      assert (a + b)[1..] == b;
    }
  }

  // ----- the pieces of a template -----

  datatype Opt = Opt(flag: string, value: string)

  function PairText(opt: Opt): string {
    opt.flag + " " + Sq(opt.value)
  }

  function PairArgs(opt: Opt): seq<Arg> {
    [Bare(opt.flag), Quoted(opt.value)]
  }

  /** The template pieces ` --flag ${sq(value)}`, one after the other. */
  function OptText(opts: seq<Opt>): string {
    if opts == [] then "" else " " + PairText(opts[0]) + OptText(opts[1..])
  }

  function OptArgs(opts: seq<Opt>): seq<Arg> {
    if opts == [] then [] else PairArgs(opts[0]) + OptArgs(opts[1..])
  }

  /** `values.map((v) => ...)` with one fixed flag. */
  function Repeat(flag: string, values: seq<string>): seq<Opt> {
    seq(|values|, i requires 0 <= i < |values| => Opt(flag, values[i]))
  }

  lemma RenderPair(opt: Opt)
    ensures Render(PairArgs(opt)) == PairText(opt)
  {
    assert PairArgs(opt)[1..] == [Quoted(opt.value)];
  }

  lemma Assoc<T>(a: seq<T>, b: seq<T>, c: seq<T>)
    ensures a + b + c == a + (b + c)
  {
  }

  lemma {:induction false} RenderOpts(head: seq<Arg>, opts: seq<Opt>)
    requires head != []
    ensures Render(head + OptArgs(opts)) == Render(head) + OptText(opts)
    decreases |opts|
  {
    hide Render, PairText, PairArgs;
    if opts == [] {
      assert head + [] == head;
    } else {
      var pair, more := PairArgs(opts[0]), opts[1..];
      RenderPair(opts[0]);
      PairNonEmpty(opts[0]);
      RenderOpts(head + pair, more);
      Assoc(head, pair, OptArgs(more));
      RenderConcat(head, pair);
      Assoc(Render(head), " ", PairText(opts[0]));
      Assoc(Render(head), " " + PairText(opts[0]), OptText(more));
    }
  }

  lemma PairNonEmpty(opt: Opt)
    ensures PairArgs(opt) != []
  {
  }

  // ----- the six builders -----

  /** The structured `inputs` record of a spec. */
  datatype Inputs =
    | OpenPrInputs(repoFullName: string, base: string, head: string, title: string, body: string, draft: bool)
    | FileIssueInputs(repoFullName: string, title: string, body: string, labels: seq<string>)
    | ApplyLabelsInputs(repoFullName: string, number: nat, labels: seq<string>)
    | CommentInputs(repoFullName: string, number: nat, body: string)
    | CreateBranchInputs(branch: string, start: Option<string>)
    | DeleteBranchInputs(branch: string, remote: bool)

  datatype Spec = Spec(inputs: Inputs, command: string)

  function OpenPrOpts(repo: string, base: string, head: string, title: string, body: string): seq<Opt> {
    [Opt("--repo", repo), Opt("--base", base), Opt("--head", head), Opt("--title", title), Opt("--body", body)]
  }

  function OpenPr(repo: string, base: string, head: string, title: string, body: string, draft: bool): Spec {
    Spec(OpenPrInputs(repo, base, head, title, body, draft),
         "gh pr create"
         + OptText(OpenPrOpts(repo, base, head, title, body))
         + (if draft then " --draft" else ""))
  }

  function FileIssue(repo: string, title: string, body: string, labels: Option<seq<string>>): Spec {
    var labelList := if labels.Some? then labels.value else [];
    Spec(FileIssueInputs(repo, title, body, labelList),
         "gh issue create" + OptText([Opt("--repo", repo), Opt("--title", title), Opt("--body", body)])
         + OptText(Repeat("--label", labelList)))
  }

  function ApplyLabels(repo: string, number: nat, labels: seq<string>): Spec {
    Spec(ApplyLabelsInputs(repo, number, labels),
         "gh issue edit " + Decimal.Format(number) + OptText([Opt("--repo", repo)])
         + OptText(Repeat("--add-label", labels)))
  }

  function PostEligibilityComment(repo: string, number: nat, body: string): Spec {
    Spec(CommentInputs(repo, number, body),
         "gh issue comment " + Decimal.Format(number) + OptText([Opt("--repo", repo), Opt("--body", body)]))
  }

  /** An empty base is falsy, so it counts as no base. */
  function CreateBranch(branch: string, base: Option<string>): Spec {
    if base.Some? && base.value != "" then
      Spec(CreateBranchInputs(branch, base), "git switch" + OptText([Opt("-c", branch)]) + (" " + Sq(base.value)))
    else
      Spec(CreateBranchInputs(branch, None), "git switch" + OptText([Opt("-c", branch)]))
  }

  function DeleteBranch(branch: string, remote: bool): Spec {
    var local := "git branch" + OptText([Opt("-D", branch)]);
    Spec(DeleteBranchInputs(branch, remote),
         if remote then local + " && " + ("git push origin" + OptText([Opt("--delete", branch)])) else local)
  }

  // ----- the argument lists of the templates -----

  function Program(words: seq<string>): seq<Arg> {
    seq(|words|, i requires 0 <= i < |words| => Bare(words[i]))
  }

  /** The pieces of the one program to run, or of the first of two. */
  function TemplateArgs(i: Inputs): seq<Arg> {
    match i
    case OpenPrInputs(repo, base, head, title, body, draft) =>
      Program(["gh", "pr", "create"])
      + OptArgs(OpenPrOpts(repo, base, head, title, body))
      + if draft then [Bare("--draft")] else []
    case FileIssueInputs(repo, title, body, labels) =>
      Program(["gh", "issue", "create"])
      + OptArgs([Opt("--repo", repo), Opt("--title", title), Opt("--body", body)] + Repeat("--label", labels))
    case ApplyLabelsInputs(repo, number, labels) =>
      Program(["gh", "issue", "edit", Decimal.Format(number)])
      + OptArgs([Opt("--repo", repo)] + Repeat("--add-label", labels))
    case CommentInputs(repo, number, body) =>
      Program(["gh", "issue", "comment", Decimal.Format(number)]) + OptArgs([Opt("--repo", repo), Opt("--body", body)])
    case CreateBranchInputs(branch, start) =>
      Program(["git", "switch"]) + OptArgs([Opt("-c", branch)])
      + if start.Some? then [Quoted(start.value)] else []
    case DeleteBranchInputs(branch, _) =>
      Program(["git", "branch"]) + OptArgs([Opt("-D", branch)])
  }

  /** All pieces: one argument list, and for a remote delete `&&` and a second one. */
  function TemplateTokens(i: Inputs): seq<Token> {
    Words(TemplateArgs(i))
    + if i.DeleteBranchInputs? && i.remote
      then [Operator("&&")] + Words(Program(["git", "push", "origin"]) + OptArgs([Opt("--delete", i.branch)]))
      else []
  }

  // ----- what a harness that ignores `command` runs, written out from `inputs` alone -----

  function Argv(words: seq<string>): seq<Token> {
    seq(|words|, i requires 0 <= i < |words| => Word(words[i]))
  }

  /** The flag before every value. */
  function Flagged(flag: string, values: seq<string>): seq<string> {
    if values == [] then [] else [flag, values[0]] + Flagged(flag, values[1..])
  }

  lemma {:induction false} FlaggedAt(flag: string, values: seq<string>, i: nat)
    requires i < |values|
    ensures |Flagged(flag, values)| == 2 * |values|
    ensures Flagged(flag, values)[2 * i] == flag && Flagged(flag, values)[2 * i + 1] == values[i]
  {
    if |values| > 1 {
      FlaggedAt(flag, values[1..], if i > 0 then i - 1 else 0);
    } else {
      assert Flagged(flag, values[1..]) == [];
    }
  }

  function Intended(i: Inputs): seq<Token> {
    match i
    case OpenPrInputs(repo, base, head, title, body, draft) =>
      Argv(["gh", "pr", "create", "--repo", repo, "--base", base, "--head", head, "--title", title, "--body", body]
           + if draft then ["--draft"] else [])
    case FileIssueInputs(repo, title, body, labels) =>
      Argv(["gh", "issue", "create", "--repo", repo, "--title", title, "--body", body] + Flagged("--label", labels))
    case ApplyLabelsInputs(repo, number, labels) =>
      Argv(["gh", "issue", "edit", Decimal.Format(number), "--repo", repo] + Flagged("--add-label", labels))
    case CommentInputs(repo, number, body) =>
      Argv(["gh", "issue", "comment", Decimal.Format(number), "--repo", repo, "--body", body])
    case CreateBranchInputs(branch, start) =>
      Argv(["git", "switch", "-c", branch] + if start.Some? then [start.value] else [])
    case DeleteBranchInputs(branch, remote) =>
      Argv(["git", "branch", "-D", branch])
      + if remote then [Operator("&&")] + Argv(["git", "push", "origin", "--delete", branch]) else []
  }

  lemma WordsAre(args: seq<Arg>, texts: seq<string>)
    requires |args| == |texts| && forall i :: 0 <= i < |args| ==> args[i].text == texts[i]
    ensures Words(args) == Argv(texts)
  {
  }

  lemma WordsConcat(a: seq<Arg>, x: seq<string>, b: seq<Arg>, y: seq<string>)
    requires Words(a) == Argv(x) && Words(b) == Argv(y)
    ensures Words(a + b) == Argv(x + y)
  {
    assert |Words(a)| == |a| && |Argv(x)| == |x| && |Words(b)| == |b| && |Argv(y)| == |y|;
    forall i | 0 <= i < |a + b| ensures (a + b)[i].text == (x + y)[i] {
      if i < |a| {
        assert Words(a)[i] == Argv(x)[i];
      } else {
        assert Words(b)[i - |a|] == Argv(y)[i - |a|];
      }
    }
    WordsAre(a + b, x + y);
  }

  /** The words of options, one after the other. */
  function OptWords(opts: seq<Opt>): seq<string> {
    if opts == [] then [] else [opts[0].flag, opts[0].value] + OptWords(opts[1..])
  }

  lemma {:induction false} OptsAreWords(opts: seq<Opt>)
    ensures Words(OptArgs(opts)) == Argv(OptWords(opts))
  {
    if opts != [] {
      WordsAre(PairArgs(opts[0]), [opts[0].flag, opts[0].value]);
      OptsAreWords(opts[1..]);
      WordsConcat(PairArgs(opts[0]), [opts[0].flag, opts[0].value], OptArgs(opts[1..]), OptWords(opts[1..]));
    }
  }

  lemma {:induction false} OptWordsConcat(a: seq<Opt>, b: seq<Opt>)
    ensures OptWords(a + b) == OptWords(a) + OptWords(b)
  {
    if a == [] {
      assert a + b == b;
    } else {
      assert (a + b)[1..] == a[1..] + b;
      OptWordsConcat(a[1..], b);
    }
  }

  lemma {:induction false} RepeatIsFlagged(flag: string, values: seq<string>)
    ensures OptWords(Repeat(flag, values)) == Flagged(flag, values)
  {
    if values != [] {
      assert Repeat(flag, values)[1..] == Repeat(flag, values[1..]);
      RepeatIsFlagged(flag, values[1..]);
    }
  }

  lemma ProgramWords(words: seq<string>)
    ensures Words(Program(words)) == Argv(words)
  {
    WordsAre(Program(words), words);
  }

  /** A program and its options, as words. */
  lemma CommandWords(program: seq<string>, opts: seq<Opt>)
    ensures Words(Program(program) + OptArgs(opts)) == Argv(program + OptWords(opts))
  {
    ProgramWords(program);
    OptsAreWords(opts);
    WordsConcat(Program(program), program, OptArgs(opts), OptWords(opts));
  }

  lemma OptWordsOne(a: Opt)
    ensures OptWords([a]) == [a.flag, a.value]
  {
    assert OptWords([]) == [];
  }

  lemma OptWordsTwo(a: Opt, b: Opt)
    ensures OptWords([a, b]) == [a.flag, a.value, b.flag, b.value]
  {
    OptWordsOne(b);
    assert [a, b][1..] == [b];
  }

  lemma OptWordsThree(a: Opt, b: Opt, c: Opt)
    ensures OptWords([a, b, c]) == [a.flag, a.value, b.flag, b.value, c.flag, c.value]
  {
    OptWordsTwo(b, c);
    assert [a, b, c][1..] == [b, c];
  }

  lemma OptWordsFive(a: Opt, b: Opt, c: Opt, d: Opt, e: Opt)
    ensures OptWords([a, b, c, d, e])
            == [a.flag, a.value, b.flag, b.value, c.flag, c.value, d.flag, d.value, e.flag, e.value]
  {
    OptWordsThree(c, d, e);
    assert [a, b, c, d, e][1..] == [b, c, d, e] && [b, c, d, e][1..] == [c, d, e];
    assert OptWords([b, c, d, e]) == [b.flag, b.value] + OptWords([c, d, e]);
  }

  /** The pieces of the templates are the words written out. */
  lemma TemplatesAreIntended(i: Inputs)
    ensures TemplateTokens(i) == Intended(i)
  {
    hide Words, OptArgs, OptWords, Program, Flagged, Repeat, Argv;
    match i
    case OpenPrInputs(repo, base, head, title, body, draft) =>
      var opts := OpenPrOpts(repo, base, head, title, body);
      CommandWords(["gh", "pr", "create"], opts);
      OptWordsFive(opts[0], opts[1], opts[2], opts[3], opts[4]);
      assert ["gh", "pr", "create"] + OptWords(opts)
          == ["gh", "pr", "create", "--repo", repo, "--base", base, "--head", head, "--title", title, "--body", body];
      var last := if draft then [Bare("--draft")] else [];
      WordsAre(last, if draft then ["--draft"] else []);
      WordsConcat(Program(["gh", "pr", "create"]) + OptArgs(opts), ["gh", "pr", "create"] + OptWords(opts),
                  last, if draft then ["--draft"] else []);
    case FileIssueInputs(repo, title, body, labels) =>
      var opts := [Opt("--repo", repo), Opt("--title", title), Opt("--body", body)];
      CommandWords(["gh", "issue", "create"], opts + Repeat("--label", labels));
      OptWordsThree(opts[0], opts[1], opts[2]);
      OptWordsConcat(opts, Repeat("--label", labels));
      RepeatIsFlagged("--label", labels);
      Assoc(["gh", "issue", "create"], OptWords(opts), Flagged("--label", labels));
      assert ["gh", "issue", "create"] + OptWords(opts)
          == ["gh", "issue", "create", "--repo", repo, "--title", title, "--body", body];
    case ApplyLabelsInputs(repo, number, labels) =>
      var program := ["gh", "issue", "edit", Decimal.Format(number)];
      CommandWords(program, [Opt("--repo", repo)] + Repeat("--add-label", labels));
      OptWordsOne(Opt("--repo", repo));
      OptWordsConcat([Opt("--repo", repo)], Repeat("--add-label", labels));
      RepeatIsFlagged("--add-label", labels);
      Assoc(program, ["--repo", repo], Flagged("--add-label", labels));
      assert program + ["--repo", repo] == ["gh", "issue", "edit", Decimal.Format(number), "--repo", repo];
    case CommentInputs(repo, number, body) =>
      var program, number := ["gh", "issue", "comment", Decimal.Format(number)], Decimal.Format(number);
      CommandWords(program, [Opt("--repo", repo), Opt("--body", body)]);
      OptWordsTwo(Opt("--repo", repo), Opt("--body", body));
      assert program + ["--repo", repo, "--body", body]
          == ["gh", "issue", "comment", number, "--repo", repo, "--body", body];
    case CreateBranchInputs(branch, start) =>
      CommandWords(["git", "switch"], [Opt("-c", branch)]);
      OptWordsOne(Opt("-c", branch));
      assert ["git", "switch"] + ["-c", branch] == ["git", "switch", "-c", branch];
      var last := if start.Some? then [Quoted(start.value)] else [];
      WordsAre(last, if start.Some? then [start.value] else []);
      WordsConcat(Program(["git", "switch"]) + OptArgs([Opt("-c", branch)]), ["git", "switch", "-c", branch],
                  last, if start.Some? then [start.value] else []);
    case DeleteBranchInputs(branch, remote) =>
      CommandWords(["git", "branch"], [Opt("-D", branch)]);
      OptWordsOne(Opt("-D", branch));
      CommandWords(["git", "push", "origin"], [Opt("--delete", branch)]);
      OptWordsOne(Opt("--delete", branch));
      assert ["git", "branch"] + ["-D", branch] == ["git", "branch", "-D", branch];
      assert ["git", "push", "origin"] + ["--delete", branch] == ["git", "push", "origin", "--delete", branch];
  }

  // ----- the command of every builder is the argument list of its inputs -----

  predicate OrdinaryFlags(opts: seq<Opt>) {
    forall i :: 0 <= i < |opts| ==> opts[i].flag != [] && Ordinary(opts[i].flag)
  }

  lemma {:induction false} OptArgsPrintable(opts: seq<Opt>)
    requires OrdinaryFlags(opts)
    ensures Printable(OptArgs(opts))
  {
    if opts != [] {
      OptArgsPrintable(opts[1..]);
    }
  }

  lemma {:induction false} OptTextConcat(a: seq<Opt>, b: seq<Opt>)
    ensures OptText(a + b) == OptText(a) + OptText(b)
  {
    hide PairText;
    if a == [] {
      assert a + b == b;
    } else {
      assert (a + b)[1..] == a[1..] + b;
      OptTextConcat(a[1..], b);
      Assoc(" " + PairText(a[0]), OptText(a[1..]), OptText(b));
    }
  }

  lemma RenderCommand(program: seq<Arg>, opts: seq<Opt>, last: seq<Arg>)
    requires program != [] && Printable(program) && OrdinaryFlags(opts) && Printable(last)
    ensures var args := program + OptArgs(opts) + last;
      && args != [] && Printable(args)
      && Render(args) == Render(program) + OptText(opts) + if last == [] then "" else " " + Render(last)
  {
    OptArgsPrintable(opts);
    var args := program + OptArgs(opts);
    assert Printable(args);
    hide Render, OptText, OptArgs, Ordinary;
    RenderOpts(program, opts);
    if last == [] {
      assert args + last == args;
    } else {
      RenderConcat(args, last);
      Assoc(Render(args), " ", Render(last));
    }
  }

  predicate OrdinaryWords(words: seq<string>) {
    forall i :: 0 <= i < |words| ==> words[i] != [] && Ordinary(words[i])
  }

  lemma Keywords2(a: string, b: string)
    requires OrdinaryWords([a, b])
    ensures Program([a, b]) != [] && Printable(Program([a, b])) && Render(Program([a, b])) == a + " " + b
  {
    assert [a, b][0] == a && [a, b][1] == b;
    assert Program([a, b]) == [Bare(a), Bare(b)];
    assert [Bare(a), Bare(b)][1..] == [Bare(b)];
  }

  lemma Keywords(a: string, rest: seq<string>)
    requires rest != [] && OrdinaryWords([a] + rest)
    ensures Program([a] + rest) != [] && Program(rest) != []
    ensures Printable(Program([a] + rest)) && Render(Program([a] + rest)) == a + " " + Render(Program(rest))
  {
    assert ([a] + rest)[0] == a;
    assert Program([a] + rest) == [Bare(a)] + Program(rest);
    RenderConcat([Bare(a)], Program(rest));
  }

  lemma GhKeywords(noun: string, verb: string)
    requires OrdinaryWords(["gh", noun, verb])
    ensures var program := Program(["gh", noun, verb]);
      program != [] && Printable(program) && Render(program) == "gh " + noun + " " + verb
  {
    var words := ["gh", noun, verb];
    assert words[1] == noun && words[2] == verb;
    assert words == ["gh"] + [noun, verb];
    Keywords2(noun, verb);
    Keywords("gh", [noun, verb]);
    Assoc("gh ", noun + " ", verb);
    Assoc("gh ", noun, " ");
    assert "gh" + " " == "gh ";
  }

  /** The common shape: a program, its options, and at most one more argument. */
  lemma CommandReads(program: seq<Arg>, opts: seq<Opt>, last: seq<Arg>)
    requires program != [] && Printable(program) && OrdinaryFlags(opts) && |last| <= 1 && Printable(last)
    ensures Read(Render(program) + OptText(opts) + if last == [] then "" else " " + Show(last[0]))
            == Tokens(Words(program + OptArgs(opts) + last))
  {
    if last != [] {
      assert last == [last[0]];
    }
    hide Read, OptText, OptArgs, Printable, Words, OrdinaryFlags, Show;
    RenderCommand(program, opts, last);
    ReadRender(program + OptArgs(opts) + last);
  }

  lemma OptsRead(program: seq<Arg>, opts: seq<Opt>)
    requires program != [] && Printable(program) && OrdinaryFlags(opts)
    ensures Read(Render(program) + OptText(opts)) == Tokens(Words(program + OptArgs(opts)))
  {
    assert Printable([]);
    hide Read, OptText, OptArgs, Printable, Words, OrdinaryFlags, Render;
    CommandReads(program, opts, []);
    assert Render(program) + OptText(opts) + "" == Render(program) + OptText(opts);
    assert program + OptArgs(opts) + [] == program + OptArgs(opts);
  }

  lemma RepeatReads(program: seq<Arg>, opts: seq<Opt>, flag: string, values: seq<string>)
    requires program != [] && Printable(program) && OrdinaryFlags(opts) && flag != [] && Ordinary(flag)
    ensures Read(Render(program) + OptText(opts) + OptText(Repeat(flag, values)))
            == Tokens(Words(program + OptArgs(opts + Repeat(flag, values))))
  {
    var each := Repeat(flag, values);
    assert OrdinaryFlags(opts + each);
    hide Read, OptText, OptArgs, Printable, Words, OrdinaryFlags, Render;
    OptsRead(program, opts + each);
    OptTextConcat(opts, each);
    Assoc(Render(program), OptText(opts), OptText(each));
  }

  lemma OpenPrRendered(repo: string, base: string, head: string, title: string, body: string, draft: bool)
    ensures var spec := OpenPr(repo, base, head, title, body, draft);
      Read(spec.command) == Tokens(TemplateTokens(spec.inputs))
  {
    hide Read, OptText, OptArgs, Printable, Words, Render, Program;
    var opts := OpenPrOpts(repo, base, head, title, body);
    assert OrdinaryFlags(opts);
    var last := if draft then [Bare("--draft")] else [];
    LastPrintable(last);
    hide OrdinaryFlags;
    GhKeywords("pr", "create");
    assert "gh " + "pr" + " " + "create" == "gh pr create" && " " + "--draft" == " --draft";
    CommandReads(Program(["gh", "pr", "create"]), opts, last);
  }

  lemma LastPrintable(last: seq<Arg>)
    requires |last| <= 1 && (last != [] && last[0].Bare? ==> last[0].text != [] && Ordinary(last[0].text))
    ensures Printable(last)
  {
  }

  lemma FileIssueRendered(repo: string, title: string, body: string, labels: Option<seq<string>>)
    ensures var spec := FileIssue(repo, title, body, labels);
      Read(spec.command) == Tokens(TemplateTokens(spec.inputs))
  {
    hide Read, OptText, OptArgs, Printable, Words, Render, Program;
    var fixed := [Opt("--repo", repo), Opt("--title", title), Opt("--body", body)];
    assert OrdinaryFlags(fixed);
    hide OrdinaryFlags;
    GhKeywords("issue", "create");
    assert "gh " + "issue" + " " + "create" == "gh issue create";
    RepeatReads(Program(["gh", "issue", "create"]), fixed, "--label", if labels.Some? then labels.value else []);
  }

  lemma ApplyLabelsRendered(repo: string, number: nat, labels: seq<string>)
    ensures var spec := ApplyLabels(repo, number, labels);
      Read(spec.command) == Tokens(TemplateTokens(spec.inputs))
  {
    hide Read, OptText, OptArgs, Printable, Words, Render, Program, Decimal.Format;
    var fixed := [Opt("--repo", repo)];
    assert OrdinaryFlags(fixed);
    hide OrdinaryFlags;
    NumberKeywords("edit", number);
    assert "gh issue " + "edit" + " " == "gh issue edit ";
    RepeatReads(Program(["gh", "issue", "edit", Decimal.Format(number)]), fixed, "--add-label", labels);
  }

  lemma PostEligibilityCommentRendered(repo: string, number: nat, body: string)
    ensures var spec := PostEligibilityComment(repo, number, body);
      Read(spec.command) == Tokens(TemplateTokens(spec.inputs))
  {
    hide Read, OptText, OptArgs, Printable, Words, Render, Program, Decimal.Format;
    var opts := [Opt("--repo", repo), Opt("--body", body)];
    assert OrdinaryFlags(opts);
    hide OrdinaryFlags;
    NumberKeywords("comment", number);
    assert "gh issue " + "comment" + " " == "gh issue comment ";
    OptsRead(Program(["gh", "issue", "comment", Decimal.Format(number)]), opts);
  }

  lemma CreateBranchRendered(branch: string, base: Option<string>)
    ensures var spec := CreateBranch(branch, base);
      Read(spec.command) == Tokens(TemplateTokens(spec.inputs))
  {
    hide Read, OptText, OptArgs, Printable, Words, Render, Program;
    var opts := [Opt("-c", branch)];
    assert OrdinaryFlags(opts);
    hide OrdinaryFlags;
    Keywords2("git", "switch");
    assert "git" + " " + "switch" == "git switch";
    var program := Program(["git", "switch"]);
    if base.Some? && base.value != "" {
      var last := [Quoted(base.value)];
      LastPrintable(last);
      CommandReads(program, opts, last);
      assert TemplateArgs(CreateBranch(branch, base).inputs) == program + OptArgs(opts) + last;
    } else {
      OptsRead(program, opts);
      assert TemplateArgs(CreateBranch(branch, base).inputs) == program + OptArgs(opts) + [];
      assert program + OptArgs(opts) + [] == program + OptArgs(opts);
    }
  }

  lemma DeleteBranchRendered(branch: string, remote: bool)
    ensures var spec := DeleteBranch(branch, remote);
      Read(spec.command) == Tokens(TemplateTokens(spec.inputs))
  {
    hide Read, OptText, OptArgs, Printable, Words, Render, Program;
    var drop, push := [Opt("-D", branch)], [Opt("--delete", branch)];
    assert OrdinaryFlags(drop) && OrdinaryFlags(push);
    hide OrdinaryFlags;
    Keywords2("git", "branch");
    assert "git" + " " + "branch" == "git branch";
    var local := Program(["git", "branch"]);
    OptsRead(local, drop);
    if remote {
      GitPush();
      RenderOpts(local, drop);
      RenderOpts(Program(["git", "push", "origin"]), push);
      OptsPrintable(local, drop);
      OptsPrintable(Program(["git", "push", "origin"]), push);
      ReadAnd(local + OptArgs(drop), Program(["git", "push", "origin"]) + OptArgs(push));
    }
  }

  lemma OptsPrintable(program: seq<Arg>, opts: seq<Opt>)
    requires program != [] && Printable(program) && OrdinaryFlags(opts)
    ensures program + OptArgs(opts) != [] && Printable(program + OptArgs(opts))
  {
    OptArgsPrintable(opts);
  }

  lemma GitPush()
    ensures var program := Program(["git", "push", "origin"]);
      program != [] && Printable(program) && Render(program) == "git push origin"
  {
    hide Render, Program, Printable;
    Keywords2("push", "origin");
    assert ["git"] + ["push", "origin"] == ["git", "push", "origin"];
    Keywords("git", ["push", "origin"]);
    assert "git" + " " + ("push" + " " + "origin") == "git push origin";
  }

  lemma NumberKeywords(verb: string, number: nat)
    requires verb != [] && Ordinary(verb)
    ensures var program := Program(["gh", "issue", verb, Decimal.Format(number)]);
      program != [] && Printable(program) && Render(program) == "gh issue " + verb + " " + Decimal.Format(number)
  {
    var n := Decimal.Format(number);
    assert n != [] && Ordinary(n);
    assert OrdinaryWords(["gh", "issue", verb, n]) && OrdinaryWords(["issue", verb, n]) && OrdinaryWords([verb, n]);
    hide Render, Program, Printable, Decimal.Format, OrdinaryWords, Ordinary;
    Keywords2(verb, n);
    assert ["issue"] + [verb, n] == ["issue", verb, n];
    assert ["gh"] + ["issue", verb, n] == ["gh", "issue", verb, n];
    Keywords("issue", [verb, n]);
    Keywords("gh", ["issue", verb, n]);
    Assoc("gh" + " ", "issue" + " ", verb + " " + n);
    assert "gh" + " " + ("issue" + " ") == "gh issue ";
    Assoc("gh issue ", verb + " ", n);
    Assoc("gh issue ", verb, " ");
    Assoc("gh" + " ", "issue" + " " , verb + " " + n);
  }

  // ----- the commands, from the parameters -----

  lemma OpenPrReads(repo: string, base: string, head: string, title: string, body: string, draft: bool)
    ensures var spec := OpenPr(repo, base, head, title, body, draft);
      && spec.inputs == OpenPrInputs(repo, base, head, title, body, draft)
      && Read(spec.command) == Tokens(Intended(spec.inputs))
  {
    hide Read, Intended, TemplateTokens;
    OpenPrRendered(repo, base, head, title, body, draft);
    TemplatesAreIntended(OpenPr(repo, base, head, title, body, draft).inputs);
  }

  lemma FileIssueReads(repo: string, title: string, body: string, labels: Option<seq<string>>)
    ensures var spec := FileIssue(repo, title, body, labels);
      && spec.inputs == FileIssueInputs(repo, title, body, if labels.Some? then labels.value else [])
      && Read(spec.command) == Tokens(Intended(spec.inputs))
  {
    hide Read, Intended, TemplateTokens;
    FileIssueRendered(repo, title, body, labels);
    TemplatesAreIntended(FileIssue(repo, title, body, labels).inputs);
  }

  lemma ApplyLabelsReads(repo: string, number: nat, labels: seq<string>)
    ensures var spec := ApplyLabels(repo, number, labels);
      && spec.inputs == ApplyLabelsInputs(repo, number, labels)
      && Read(spec.command) == Tokens(Intended(spec.inputs))
  {
    hide Read, Intended, TemplateTokens;
    ApplyLabelsRendered(repo, number, labels);
    TemplatesAreIntended(ApplyLabels(repo, number, labels).inputs);
  }

  lemma PostEligibilityCommentReads(repo: string, number: nat, body: string)
    ensures var spec := PostEligibilityComment(repo, number, body);
      && spec.inputs == CommentInputs(repo, number, body)
      && Read(spec.command) == Tokens(Intended(spec.inputs))
  {
    hide Read, Intended, TemplateTokens;
    PostEligibilityCommentRendered(repo, number, body);
    TemplatesAreIntended(PostEligibilityComment(repo, number, body).inputs);
  }

  /** An empty base is no base. */
  lemma CreateBranchReads(branch: string, base: Option<string>)
    ensures var spec := CreateBranch(branch, base);
      && spec.inputs == CreateBranchInputs(branch, if base == Some("") then None else base)
      && Read(spec.command) == Tokens(Intended(spec.inputs))
  {
    hide Read, Intended, TemplateTokens;
    CreateBranchRendered(branch, base);
    TemplatesAreIntended(CreateBranch(branch, base).inputs);
  }

  /** The only builder that writes an operator, and only when the remote branch goes too. */
  lemma DeleteBranchReads(branch: string, remote: bool)
    ensures var spec := DeleteBranch(branch, remote);
      && spec.inputs == DeleteBranchInputs(branch, remote)
      && Read(spec.command) == Tokens(Intended(spec.inputs))
  {
    hide Read, Intended, TemplateTokens;
    DeleteBranchRendered(branch, remote);
    TemplatesAreIntended(DeleteBranch(branch, remote).inputs);
  }
}
