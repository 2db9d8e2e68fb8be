/** Shell quoting (`tooling.rs`), against the token rules of the POSIX Shell Command Language. */
module ShellWords {
  import opened Text

  // ---------------------------------------------------------------- the printer

  predicate SafeChar(c: char) {
    'a' <= c <= 'z' || 'A' <= c <= 'Z' || '0' <= c <= '9'
    || c == '_' || c == '@' || c == '%' || c == '+' || c == '=' || c == ':'
    || c == ',' || c == '.' || c == '/' || c == '-'
  }

  predicate Safe(v: string) {
    forall i :: 0 <= i < |v| ==> SafeChar(v[i])
  }

  /** `replace('\'', "'\\''")`. */
  function Escaped(v: string): string {
    if v == "" then "" else (if v[0] == '\'' then "'\\''" else [v[0]]) + Escaped(v[1..])
  }

  function ShellQuote(v: string): string {
    if v == "" then "''" else "'" + Escaped(v) + "'"
  }

  function ShellWord(v: string): string {
    if v != "" && Safe(v) then v else ShellQuote(v)
  }

  // ---------------------------------------------------------------- the shell

  datatype Token = Word(text: string) | Newline

  /**
   * Where the shell is: between tokens, in a word, in single quotes, after a backslash (with the
   * word so far, if one has begun), in a comment, or past something this lexer gives no meaning to.
   */
  datatype Mode =
    | Between | InWord(word: string) | InQuote(word: string) | AfterBackslash(begun: Option<string>) | InComment | Bad

  datatype Lexer = Lexer(tokens: seq<Token>, mode: Mode) {
    /** The characters of the word being read. */
    function Text(): string {
      match mode
      case InWord(w) => w
      case InQuote(w) => w
      case AfterBackslash(Some(w)) => w
      case _ => ""
    }

    function Flushed(): seq<Token> {
      if mode.InWord? then tokens + [Word(mode.word)] else tokens
    }

    predicate Unquoted() {
      mode.Between? || mode.InWord?
    }
  }

  const NUL := '\U{0000}'

  /** Operators, expansions, double quotes, patterns and tildes: never taken as themselves. */
  predicate Special(c: char) {
    || c == '|' || c == '&' || c == ';' || c == '<' || c == '>' || c == '(' || c == ')'
    || c == '$' || c == '`' || c == '"' || c == '*' || c == '?' || c == '[' || c == '~'
  }

  /**
   * One character. Sections 2.2.1 (backslash, line continuation), 2.2.2 (single quotes) and 2.3
   * (blanks, newlines and comments) of the Shell Command Language; NUL is no shell input.
   */
  function Step(l: Lexer, c: char): Lexer {
    if l.mode.Bad? || c == NUL then l.(mode := Bad)
    else if l.mode.InQuote? then l.(mode := if c == '\'' then InWord(l.Text()) else InQuote(l.Text() + [c]))
    else if l.mode.AfterBackslash? then
      if c != '\n' then l.(mode := InWord(l.Text() + [c]))
      else l.(mode := if l.mode.begun.Some? then InWord(l.Text()) else Between)
    else if c == '\n' then Lexer(l.Flushed() + [Newline], Between)
    else if l.mode.InComment? then l
    else if c == ' ' || c == '\t' then Lexer(l.Flushed(), Between)
    else if c == '\'' then l.(mode := InQuote(l.Text()))
    else if c == '\\' then l.(mode := AfterBackslash(if l.mode.InWord? then Some(l.mode.word) else None))
    else if c == '#' && l.mode.Between? then l.(mode := InComment)
    else if Special(c) then l.(mode := Bad)
    else l.(mode := InWord(l.Text() + [c]))
  }

  function Feed(l: Lexer, s: string): Lexer
    decreases |s|
  {
    if s == "" then l else Feed(Step(l, s[0]), s[1..])
  }

  const FRESH := Lexer([], Between)

  /** The tokens of a whole input. */
  function Lex(s: string): Option<seq<Token>> {
    var l := Feed(FRESH, s);
    if l.Unquoted() || l.mode.InComment? then Some(l.Flushed()) else None
  }

  lemma {:induction false} FeedConcat(l: Lexer, a: string, b: string)
    ensures Feed(l, a + b) == Feed(Feed(l, a), b)
    decreases |a|
  {
    if a == "" {
      assert a + b == b;
    } else {
      assert (a + b)[1..] == a[1..] + b;
      FeedConcat(Step(l, a[0]), a[1..], b);
    }
  }

  lemma {:induction false} FeedBad(l: Lexer, s: string)
    requires l.mode.Bad?
    ensures Feed(l, s) == l
    decreases |s|
  {
    if s != "" {
      FeedBad(Step(l, s[0]), s[1..]);
    }
  }

  /** No token is taken back. */
  lemma {:induction false} FeedGrows(l: Lexer, s: string)
    ensures l.tokens <= Feed(l, s).tokens
    decreases |s|
  {
    if s != "" {
      FeedGrows(Step(l, s[0]), s[1..]);
    }
  }

  // ---------------------------------------------------------------- what the shell reads back

  predicate NulFree(v: string) {
    forall i :: 0 <= i < |v| ==> v[i] != NUL
  }

  lemma StepSafe(l: Lexer, c: char)
    requires l.Unquoted() && SafeChar(c)
    ensures Step(l, c) == l.(mode := InWord(l.Text() + [c]))
  {
  }

  lemma {:induction false} FeedSafeOn(tokens: seq<Token>, w: string, v: string)
    requires Safe(v)
    ensures Feed(Lexer(tokens, InWord(w)), v) == Lexer(tokens, InWord(w + v))
    decreases |v|
  {
    if v == "" {
      assert w + v == w;
    } else {
      StepSafe(Lexer(tokens, InWord(w)), v[0]);
      FeedSafeOn(tokens, w + [v[0]], v[1..]);
      assert w + [v[0]] + v[1..] == w + v;
    }
  }

  lemma FeedSafe(l: Lexer, v: string)
    requires l.Unquoted() && Safe(v) && v != ""
    ensures Feed(l, v) == l.(mode := InWord(l.Text() + v))
  {
    StepSafe(l, v[0]);
    FeedSafeOn(l.tokens, l.Text() + [v[0]], v[1..]);
    assert l.Text() + [v[0]] + v[1..] == l.Text() + v;
  }

  lemma FeedOne(l: Lexer, c: char)
    ensures Feed(l, [c]) == Step(l, c)
  {
    assert [c][1..] == "";
  }

  lemma FeedQuoteInQuotes(l: Lexer)
    requires l.mode.InQuote?
    ensures Feed(l, "'\\''") == l.(mode := InQuote(l.Text() + "'"))
  {
    FeedOne(l, '\'');
    var out := Step(l, '\'');
    FeedOne(out, '\\');
    FeedOne(Step(out, '\\'), '\'');
    FeedOne(Step(Step(out, '\\'), '\''), '\'');
    FeedConcat(l, "'", "\\''");
    FeedConcat(out, "\\", "''");
    FeedConcat(Step(out, '\\'), "'", "'");
    assert "'\\''" == "'" + "\\''" && "\\''" == "\\" + "''" && "''" == "'" + "'";
  }

  lemma {:induction false} FeedEscaped(l: Lexer, v: string)
    requires l.mode.InQuote?
    ensures NulFree(v) ==> Feed(l, Escaped(v)) == l.(mode := InQuote(l.Text() + v))
    ensures !NulFree(v) ==> Feed(l, Escaped(v)).mode.Bad?
    decreases |v|
  {
    if v == "" {
      assert l.Text() + v == l.Text();
    } else {
      var first := if v[0] == '\'' then "'\\''" else [v[0]];
      FeedConcat(l, first, Escaped(v[1..]));
      assert l.Text() + [v[0]] + v[1..] == l.Text() + v;
      if v[0] == NUL {
        FeedOne(l, NUL);
        FeedBad(Step(l, NUL), Escaped(v[1..]));
      } else {
        if v[0] == '\'' {
          FeedQuoteInQuotes(l);
        } else {
          FeedOne(l, v[0]);
        }
        FeedEscaped(Feed(l, first), v[1..]);
        assert v == [v[0]] + v[1..];
      }
    }
  }

  /** Where a word may begin or go on, the printed value is read as exactly the value. */
  lemma FeedShellWord(l: Lexer, v: string)
    requires l.Unquoted()
    ensures NulFree(v) ==> Feed(l, ShellWord(v)) == l.(mode := InWord(l.Text() + v))
    ensures !NulFree(v) ==> Feed(l, ShellWord(v)).mode.Bad?
  {
    if v != "" && Safe(v) {
      FeedSafe(l, v);
    } else {
      assert ShellWord(v) == "'" + Escaped(v) + "'";
      FeedConcat(l, "'" + Escaped(v), "'");
      FeedConcat(l, "'", Escaped(v));
      FeedOne(l, '\'');
      FeedEscaped(Step(l, '\''), v);
      if NulFree(v) {
        FeedOne(Feed(l, "'" + Escaped(v)), '\'');
      } else {
        FeedBad(Feed(l, "'" + Escaped(v)), "'");
      }
    }
  }

  /** A printed value is one shell word of that value, exactly when it holds no NUL. */
  lemma ShellWordIff(v: string)
    ensures Lex(ShellWord(v)) == Some([Word(v)]) <==> NulFree(v)
    ensures !NulFree(v) ==> Lex(ShellWord(v)) == None
  {
    FeedShellWord(FRESH, v);
    assert "" + v == v && FRESH.tokens + [Word(v)] == [Word(v)];
  }

  /** Different values print differently. */
  lemma ShellWordInjective(v: string, w: string)
    requires NulFree(v) && ShellWord(v) == ShellWord(w)
    ensures v == w
  {
    ShellWordIff(v);
    ShellWordIff(w);
  }
}
