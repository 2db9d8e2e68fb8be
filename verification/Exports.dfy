/** The exports of an activation, and the script that prints them (`tooling.rs`). */
module Exports {
  import opened Text
  import opened ShellWords

  datatype EnvExport = EnvExport(key: string, value: string)

  /** `iter().position(…)`. */
  function Position(exports: seq<EnvExport>, key: string): (r: Option<nat>)
    ensures r.Some? ==> r.value < |exports|
  {
    if exports == [] then None
    else if exports[0].key == key then Some(0)
    else
      match Position(exports[1..], key)
      case Some(i) => Some(i + 1)
      case None => None
  }

  predicate HasKey(exports: seq<EnvExport>, key: string) {
    exports != [] && (exports[0].key == key || HasKey(exports[1..], key))
  }

  /** What is left of a run of pushes: each key once, at its last push. */
  function LastOnly(pushes: seq<EnvExport>): seq<EnvExport> {
    if pushes == [] then []
    else if HasKey(pushes[1..], pushes[0].key) then LastOnly(pushes[1..])
    else [pushes[0]] + LastOnly(pushes[1..])
  }

  /** Every export of another key, in order. */
  function Others(exports: seq<EnvExport>, key: string): seq<EnvExport> {
    if exports == [] then []
    else if exports[0].key == key then Others(exports[1..], key)
    else [exports[0]] + Others(exports[1..], key)
  }

  predicate DistinctKeys(exports: seq<EnvExport>) {
    forall i, j :: 0 <= i < j < |exports| ==> exports[i].key != exports[j].key
  }

  class Activation {
    var exports: seq<EnvExport>
    var files: seq<string>
    /** Every push so far. */
    ghost var pushes: seq<EnvExport>

    ghost predicate Valid()
      reads this
    {
      exports == LastOnly(pushes)
    }

    constructor ()
      ensures Valid() && exports == [] && files == [] && pushes == []
    {
      exports, files, pushes := [], [], [];
    }

    /** `push_export`: the earlier export of the key goes, the new one comes last. */
    method PushExport(key: string, value: string)
      requires Valid()
      modifies this
      ensures Valid() && pushes == old(pushes) + [EnvExport(key, value)]
      ensures exports == Others(old(exports), key) + [EnvExport(key, value)]
      ensures files == old(files)
    {
      var position := Position(exports, key);
      LastOnlyDistinct(pushes);
      WithoutPosition(exports, key);
      if position.Some? {
        exports := exports[..position.value] + exports[position.value + 1..];
      }
      exports := exports + [EnvExport(key, value)];
      LastOnlyPush(pushes, EnvExport(key, value));
      pushes := pushes + [EnvExport(key, value)];
    }

    method AddFile(path: string)
      requires Valid()
      modifies this
      ensures Valid() && exports == old(exports) && pushes == old(pushes)
      ensures files == old(files) + [path]
    {
      files := files + [path];
    }
  }

  // ---------------------------------------------------------------- pushes

  lemma {:induction false} HasKeyIff(exports: seq<EnvExport>, key: string)
    ensures HasKey(exports, key) <==> exists i :: 0 <= i < |exports| && exports[i].key == key
  {
    if exports != [] {
      HasKeyIff(exports[1..], key);
      if HasKey(exports[1..], key) {
        var i :| 0 <= i < |exports[1..]| && exports[1..][i].key == key;
        assert exports[i + 1].key == key;
      }
    }
  }

  lemma {:induction false} HasKeyPush(pushes: seq<EnvExport>, e: EnvExport, key: string)
    ensures HasKey(pushes + [e], key) <==> HasKey(pushes, key) || e.key == key
  {
    if pushes == [] {
      assert pushes + [e] == [e];
    } else {
      assert (pushes + [e])[1..] == pushes[1..] + [e];
      HasKeyPush(pushes[1..], e, key);
    }
  }

  lemma {:induction false} LastOnlyPush(pushes: seq<EnvExport>, e: EnvExport)
    ensures LastOnly(pushes + [e]) == Others(LastOnly(pushes), e.key) + [e]
  {
    if pushes == [] {
      assert pushes + [e] == [e];
    } else {
      assert (pushes + [e])[1..] == pushes[1..] + [e];
      LastOnlyPush(pushes[1..], e);
      HasKeyPush(pushes[1..], e, pushes[0].key);
      var rest := LastOnly(pushes[1..]);
      assert ([pushes[0]] + rest)[1..] == rest;
    }
  }

  lemma {:induction false} LastOnlyKeys(pushes: seq<EnvExport>, key: string)
    ensures HasKey(LastOnly(pushes), key) <==> HasKey(pushes, key)
  {
    if pushes != [] {
      LastOnlyKeys(pushes[1..], key);
      var rest := LastOnly(pushes[1..]);
      assert ([pushes[0]] + rest)[1..] == rest;
    }
  }

  lemma {:induction false} LastOnlyDistinct(pushes: seq<EnvExport>)
    ensures DistinctKeys(LastOnly(pushes))
  {
    if pushes != [] {
      LastOnlyDistinct(pushes[1..]);
      LastOnlyKeys(pushes[1..], pushes[0].key);
      HasKeyIff(LastOnly(pushes[1..]), pushes[0].key);
    }
  }

  lemma {:induction false} OthersAbsent(exports: seq<EnvExport>, key: string)
    requires !HasKey(exports, key)
    ensures Others(exports, key) == exports && Position(exports, key).None?
  {
    if exports != [] {
      OthersAbsent(exports[1..], key);
    }
  }

  /** With keys distinct, taking out the first position of a key leaves the others. */
  lemma {:induction false} WithoutPosition(exports: seq<EnvExport>, key: string)
    requires DistinctKeys(exports)
    ensures match Position(exports, key)
            case Some(i) => Others(exports, key) == exports[..i] + exports[i + 1..]
            case None => Others(exports, key) == exports
  {
    if exports != [] {
      var first, rest := exports[0], exports[1..];
      if first.key == key {
        HasKeyIff(rest, key);
        OthersAbsent(rest, key);
      } else {
        WithoutPosition(rest, key);
        var position := Position(rest, key);
        if position.Some? {
          assert [first] + (rest[..position.value] + rest[position.value + 1..])
              == exports[..position.value + 1] + exports[position.value + 2..];
        }
      }
    }
  }

  /** The value each key was last given. */
  function Assigned(exports: seq<EnvExport>): map<string, string> {
    if exports == [] then map[]
    else map[exports[0].key := exports[0].value] + Assigned(exports[1..])
  }

  lemma {:induction false} AssignedKeys(exports: seq<EnvExport>, key: string)
    ensures key in Assigned(exports) <==> HasKey(exports, key)
  {
    if exports != [] {
      AssignedKeys(exports[1..], key);
    }
  }

  /** Dropping every push but the last of each key changes no value. */
  lemma {:induction false} AssignedLastOnly(pushes: seq<EnvExport>)
    ensures Assigned(LastOnly(pushes)) == Assigned(pushes)
  {
    if pushes != [] {
      var first, rest := pushes[0], pushes[1..];
      AssignedLastOnly(rest);
      AssignedKeys(rest, first.key);
      assert ([first] + LastOnly(rest))[1..] == LastOnly(rest);
      if HasKey(rest, first.key) {
        assert map[first.key := first.value] + Assigned(rest) == Assigned(rest);
      }
    }
  }

  // ---------------------------------------------------------------- the script

  function ExportLine(e: EnvExport): string {
    "export " + e.key + "=" + ShellWord(e.value)
  }

  /** `shell_lines`. */
  function ShellLines(exports: seq<EnvExport>, files: seq<string>): seq<string> {
    seq(|exports|, i requires 0 <= i < |exports| => ExportLine(exports[i]))
    + seq(|files|, i requires 0 <= i < |files| => "# wrote " + files[i])
  }

  /** One line each. */
  function Printed(lines: seq<string>): string {
    if lines == [] then "" else lines[0] + ['\n'] + Printed(lines[1..])
  }

  /** A name, in the sense of section 3.235 of the POSIX Base Definitions. */
  predicate IsName(key: string) {
    && key != "" && !('0' <= key[0] <= '9')
    && forall i :: 0 <= i < |key| ==>
         'a' <= key[i] <= 'z' || 'A' <= key[i] <= 'Z' || '0' <= key[i] <= '9' || key[i] == '_'
  }

  function Assignment(word: string): Option<EnvExport> {
    var name := UpTo(word, '=');
    UpToSplits(word, '=');
    if IsName(name) && |name| < |word| then Some(EnvExport(name, word[|name| + 1..])) else None
  }

  /** A script of `export name=value` lines, run in an environment. */
  function Evaluate(tokens: seq<Token>, env: map<string, string>): Option<map<string, string>>
    decreases |tokens|
  {
    if tokens == [] then Some(env)
    else if tokens[0].Newline? then Evaluate(tokens[1..], env)
    else if |tokens| < 3 || tokens[0].text != "export" || !tokens[1].Word? || !tokens[2].Newline? then None
    else
      match Assignment(tokens[1].text)
      case None => None
      case Some(e) => Evaluate(tokens[3..], env[e.key := e.value])
  }

  predicate Exportable(e: EnvExport) {
    IsName(e.key) && NulFree(e.value)
  }

  /** Stays inside the comment that reports it. */
  predicate OneLine(path: string) {
    NulFree(path) && Free(path, '\n')
  }

  ghost predicate AllExportable(exports: seq<EnvExport>) {
    forall i :: 0 <= i < |exports| ==> Exportable(exports[i])
  }

  ghost predicate AllOneLine(files: seq<string>) {
    forall i :: 0 <= i < |files| ==> OneLine(files[i])
  }

  function ExportTokens(e: EnvExport): seq<Token> {
    [Word("export"), Word(e.key + "=" + e.value), Newline]
  }

  /** The tokens of the script, in the order of the exports and the files. */
  function ScriptTokens(exports: seq<EnvExport>, files: nat): seq<Token> {
    if exports != [] then ExportTokens(exports[0]) + ScriptTokens(exports[1..], files)
    else if files > 0 then [Newline] + ScriptTokens(exports, files - 1)
    else []
  }

  lemma FeedExport(tokens: seq<Token>)
    ensures Feed(Lexer(tokens, Between), "export") == Lexer(tokens, InWord("export"))
  {
    FeedSafe(Lexer(tokens, Between), "export");
    assert "" + "export" == "export";
  }

  lemma FeedExportWord(l: Lexer)
    requires l.mode.Between?
    ensures Feed(l, "export ") == Lexer(l.tokens + [Word("export")], Between)
  {
    assert "export " == "export" + [' '];
    FeedConcat(l, "export", [' ']);
    FeedExport(l.tokens);
    FeedOne(Lexer(l.tokens, InWord("export")), ' ');
  }

  lemma FeedKey(tokens: seq<Token>, key: string)
    requires IsName(key)
    ensures Feed(Lexer(tokens, Between), key + "=") == Lexer(tokens, InWord(key + "="))
  {
    FeedSafe(Lexer(tokens, Between), key + "=");
    assert "" + (key + "=") == key + "=";
  }

  lemma FeedValue(tokens: seq<Token>, head: string, value: string)
    requires NulFree(value)
    ensures Feed(Lexer(tokens, InWord(head)), ShellWord(value) + ['\n'])
            == Lexer(tokens + [Word(head + value), Newline], Between)
  {
    var l := Lexer(tokens, InWord(head));
    FeedConcat(l, ShellWord(value), ['\n']);
    FeedShellWord(l, value);
    FeedOne(Lexer(tokens, InWord(head + value)), '\n');
    TokensAssociate(tokens, [Word(head + value)], [Newline]);
  }

  lemma FeedAssignment(tokens: seq<Token>, e: EnvExport)
    requires Exportable(e)
    ensures Feed(Lexer(tokens, Between), e.key + "=" + ShellWord(e.value) + ['\n'])
            == Lexer(tokens + [Word(e.key + "=" + e.value), Newline], Between)
  {
    var head, word := e.key + "=", ShellWord(e.value);
    assert head + word + ['\n'] == head + (word + ['\n']);
    FeedConcat(Lexer(tokens, Between), head, word + ['\n']);
    FeedKey(tokens, e.key);
    FeedValue(tokens, head, e.value);
  }

  lemma ExportLineParts(e: EnvExport)
    ensures ExportLine(e) + ['\n'] == "export " + (e.key + "=" + ShellWord(e.value) + ['\n'])
  {
  }

  lemma FeedExportLine(l: Lexer, e: EnvExport)
    requires l.mode.Between? && Exportable(e)
    ensures Feed(l, ExportLine(e) + ['\n']) == Lexer(l.tokens + ExportTokens(e), Between)
  {
    var assignment := e.key + "=" + ShellWord(e.value) + ['\n'];
    ExportLineParts(e);
    FeedConcat(l, "export ", assignment);
    FeedExportWord(l);
    FeedAssignment(l.tokens + [Word("export")], e);
    TokensAssociate(l.tokens, [Word("export")], [Word(e.key + "=" + e.value), Newline]);
  }

  /** A path is read as part of its comment exactly when it is one line. */
  lemma {:induction false} FeedCommentIff(l: Lexer, path: string)
    requires l.mode.InComment?
    ensures Feed(l, path) == l <==> OneLine(path)
    decreases |path|
  {
    if path != "" {
      var next := Step(l, path[0]);
      if path[0] == NUL {
        FeedBad(next, path[1..]);
      } else if path[0] == '\n' {
        FeedGrows(next, path[1..]);
      } else {
        FeedCommentIff(l, path[1..]);
      }
    }
  }

  lemma FeedFileLine(l: Lexer, path: string)
    requires l.mode.Between? && OneLine(path)
    ensures Feed(l, "# wrote " + path + ['\n']) == Lexer(l.tokens + [Newline], Between)
  {
    var text := " wrote " + path;
    assert "# wrote " + path + ['\n'] == "#" + text + ['\n'];
    FeedConcat(l, "#" + text, ['\n']);
    FeedConcat(l, "#", text);
    FeedOne(l, '#');
    FeedCommentIff(Step(l, '#'), text);
    FeedOne(Step(l, '#'), '\n');
  }

  lemma PrintedExport(exports: seq<EnvExport>, files: seq<string>)
    requires exports != []
    ensures Printed(ShellLines(exports, files))
            == ExportLine(exports[0]) + ['\n'] + Printed(ShellLines(exports[1..], files))
  {
    assert ShellLines(exports, files)[1..] == ShellLines(exports[1..], files);
  }

  lemma PrintedFile(files: seq<string>)
    requires files != []
    ensures Printed(ShellLines([], files)) == "# wrote " + files[0] + ['\n'] + Printed(ShellLines([], files[1..]))
  {
    assert ShellLines([], files)[1..] == ShellLines([], files[1..]);
  }

  lemma FeedExportThen(tokens: seq<Token>, e: EnvExport, rest: string)
    requires Exportable(e)
    ensures Feed(Lexer(tokens, Between), ExportLine(e) + ['\n'] + rest)
            == Feed(Lexer(tokens + ExportTokens(e), Between), rest)
  {
    FeedConcat(Lexer(tokens, Between), ExportLine(e) + ['\n'], rest);
    FeedExportLine(Lexer(tokens, Between), e);
  }

  lemma FeedFileThen(tokens: seq<Token>, path: string, rest: string)
    requires OneLine(path)
    ensures Feed(Lexer(tokens, Between), "# wrote " + path + ['\n'] + rest)
            == Feed(Lexer(tokens + [Newline], Between), rest)
  {
    FeedConcat(Lexer(tokens, Between), "# wrote " + path + ['\n'], rest);
    FeedFileLine(Lexer(tokens, Between), path);
  }

  lemma TokensAssociate(a: seq<Token>, b: seq<Token>, c: seq<Token>)
    ensures a + b + c == a + (b + c)
  {
  }

  lemma {:induction false} FeedFiles(tokens: seq<Token>, files: seq<string>)
    requires AllOneLine(files)
    ensures Feed(Lexer(tokens, Between), Printed(ShellLines([], files)))
            == Lexer(tokens + ScriptTokens([], |files|), Between)
    decreases |files|
  {
    if files != [] {
      PrintedFile(files);
      FeedFileThen(tokens, files[0], Printed(ShellLines([], files[1..])));
      FeedFiles(tokens + [Newline], files[1..]);
      TokensAssociate(tokens, [Newline], ScriptTokens([], |files| - 1));
    }
  }

  lemma {:induction false} FeedScript(tokens: seq<Token>, exports: seq<EnvExport>, files: seq<string>)
    requires AllExportable(exports) && AllOneLine(files)
    ensures Feed(Lexer(tokens, Between), Printed(ShellLines(exports, files)))
            == Lexer(tokens + ScriptTokens(exports, |files|), Between)
    decreases |exports|
  {
    if exports == [] {
      FeedFiles(tokens, files);
    } else {
      PrintedExport(exports, files);
      FeedExportThen(tokens, exports[0], Printed(ShellLines(exports[1..], files)));
      FeedScript(tokens + ExportTokens(exports[0]), exports[1..], files);
      TokensAssociate(tokens, ExportTokens(exports[0]), ScriptTokens(exports[1..], |files|));
    }
  }

  lemma AssignedHead(exports: seq<EnvExport>, env: map<string, string>)
    requires exports != []
    ensures env[exports[0].key := exports[0].value] + Assigned(exports[1..]) == env + Assigned(exports)
  {
  }

  lemma EvaluateExport(e: EnvExport, rest: seq<Token>, env: map<string, string>)
    requires IsName(e.key)
    ensures Evaluate(ExportTokens(e) + rest, env) == Evaluate(rest, env[e.key := e.value])
  {
    AssignmentOf(e);
    assert (ExportTokens(e) + rest)[3..] == rest;
  }

  lemma {:induction false} EvaluateFiles(files: nat, env: map<string, string>)
    ensures Evaluate(ScriptTokens([], files), env) == Some(env)
  {
    if files > 0 {
      assert ScriptTokens([], files)[1..] == ScriptTokens([], files - 1);
      EvaluateFiles(files - 1, env);
    }
  }

  lemma {:induction false} EvaluateScript(exports: seq<EnvExport>, files: nat, env: map<string, string>)
    requires AllExportable(exports)
    ensures Evaluate(ScriptTokens(exports, files), env) == Some(env + Assigned(exports))
    decreases |exports|
  {
    if exports == [] {
      EvaluateFiles(files, env);
      assert env + map[] == env;
    } else {
      EvaluateExport(exports[0], ScriptTokens(exports[1..], files), env);
      EvaluateScript(exports[1..], files, env[exports[0].key := exports[0].value]);
      AssignedHead(exports, env);
    }
  }

  lemma AssignmentOf(e: EnvExport)
    requires IsName(e.key)
    ensures Assignment(e.key + "=" + e.value) == Some(e)
  {
    var word := e.key + "=" + e.value;
    assert word == e.key + ("=" + e.value);
    UpToOf(e.key, '=', "=" + e.value);
    assert word[|e.key| + 1..] == e.value;
  }

  /**
   * Running the printed script of any run of pushes gives every pushed key its last value and leaves
   * every other variable alone, whatever the values hold.
   */
  lemma ScriptAssignsPushes(pushes: seq<EnvExport>, files: seq<string>, env: map<string, string>)
    requires AllExportable(pushes) && AllOneLine(files)
    ensures var tokens := Lex(Printed(ShellLines(LastOnly(pushes), files)));
            tokens.Some? && Evaluate(tokens.value, env) == Some(env + Assigned(pushes))
  {
    LastOnlyExportable(pushes);
    FeedScript([], LastOnly(pushes), files);
    EvaluateScript(LastOnly(pushes), |files|, env);
    assert [] + ScriptTokens(LastOnly(pushes), |files|) == ScriptTokens(LastOnly(pushes), |files|);
    AssignedLastOnly(pushes);
  }

  lemma {:induction false} FeedExports(tokens: seq<Token>, exports: seq<EnvExport>, files: seq<string>)
    requires AllExportable(exports)
    ensures Feed(Lexer(tokens, Between), Printed(ShellLines(exports, files)))
            == Feed(Lexer(tokens + ScriptTokens(exports, 0), Between), Printed(ShellLines([], files)))
    decreases |exports|
  {
    if exports == [] {
      assert tokens + ScriptTokens(exports, 0) == tokens;
    } else {
      PrintedExport(exports, files);
      FeedExportThen(tokens, exports[0], Printed(ShellLines(exports[1..], files)));
      FeedExports(tokens + ExportTokens(exports[0]), exports[1..], files);
      TokensAssociate(tokens, ExportTokens(exports[0]), ScriptTokens(exports[1..], 0));
    }
  }

  /**
   * Whatever the paths hold, the shell first reads the exports, and running what it has read by then
   * gives every pushed key its last value and changes nothing else.
   */
  lemma ExportsComeFirst(pushes: seq<EnvExport>, files: seq<string>, env: map<string, string>)
    requires AllExportable(pushes)
    ensures var read := ScriptTokens(LastOnly(pushes), 0);
            && read <= Feed(FRESH, Printed(ShellLines(LastOnly(pushes), files))).tokens
            && Evaluate(read, env) == Some(env + Assigned(pushes))
  {
    var exports, read := LastOnly(pushes), ScriptTokens(LastOnly(pushes), 0);
    LastOnlyExportable(pushes);
    FeedExports([], exports, files);
    assert [] + read == read;
    FeedGrows(Lexer(read, Between), Printed(ShellLines([], files)));
    EvaluateScript(exports, 0, env);
    AssignedLastOnly(pushes);
  }

  lemma {:induction false} LastOnlyExportable(pushes: seq<EnvExport>)
    requires AllExportable(pushes)
    ensures AllExportable(LastOnly(pushes))
  {
    if pushes != [] {
      LastOnlyExportable(pushes[1..]);
    }
  }

  /** A path that holds a newline does not stay in its comment: what follows the newline is words. */
  lemma PathLeavesComment(path: string, word: string)
    requires OneLine(path) && word != "" && Safe(word)
    ensures Lex(Printed(ShellLines([], [path + ['\n'] + word]))) == Some([Newline, Word(word), Newline])
  {
    var line := "# wrote " + (path + ['\n'] + word);
    var lines := ShellLines([], [path + ['\n'] + word]);
    assert lines == [line];
    assert lines[1..] == [];
    assert Printed(lines) == line + ['\n'] + "";
    assert line + ['\n'] + "" == "# wrote " + path + ['\n'] + (word + ['\n']);
    FeedConcat(FRESH, "# wrote " + path + ['\n'], word + ['\n']);
    FeedFileLine(FRESH, path);
    var l := Lexer(FRESH.tokens + [Newline], Between);
    FeedConcat(l, word, ['\n']);
    FeedSafe(l, word);
    FeedOne(Feed(l, word), '\n');
    assert "" + word == word;
    assert l.tokens + [Word(word)] + [Newline] == [Newline, Word(word), Newline];
  }
}
