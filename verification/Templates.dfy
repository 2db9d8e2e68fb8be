/** The one-pass template renderer of the tool adapters (`tooling.rs`). */
module Templates {
  import opened Text

  datatype TemplateError = Unclosed | UnknownVariable(token: string) | UnknownManagedFile(id: string)

  datatype Rendering = Rendered(text: string) | Failed(error: TemplateError) {
    /** `before` in front, unless the rest failed. */
    function After(before: string): Rendering {
      if Rendered? then Rendered(before + text) else this
    }
  }

  /** What a template may name; `managedFiles` are the files written so far. */
  datatype ToolContext = ToolContext(
    tokenName: string, tokenValue: string, gatewayUrl: string, gatewayHost: string, generatedRoot: string,
    managedFiles: map<string, string>)

  function ValueOf(cx: ToolContext, token: string): Rendering {
    if token == "token" then Rendered(cx.tokenValue)
    else if token == "token_name" then Rendered(cx.tokenName)
    else if token == "gateway_url" then Rendered(cx.gatewayUrl)
    else if token == "gateway_host" then Rendered(cx.gatewayHost)
    else if token == "generated_root" then Rendered(cx.generatedRoot)
    else
      match StripPrefix(token, "route_url:")
      case Some(route) => Rendered(cx.gatewayUrl + "/" + route)
      case None =>
        match StripPrefix(token, "managed_file:")
        case Some(id) => if id in cx.managedFiles then Rendered(cx.managedFiles[id]) else Failed(UnknownManagedFile(id))
        case None => Failed(UnknownVariable(token))
  }

  const OPEN := "{{"
  const CLOSE := "}}"

  /** The first variable of a text: none, one that is not closed, or one with what is on either side. */
  datatype FirstVariable =
    | NoVariable
    | NotClosed(text: string, tail: string)
    | Found(text: string, name: string, rest: string)

  function Next(s: string): (first: FirstVariable)
    ensures first.Found? ==> |first.rest| < |s|
  {
    match Find(s, OPEN)
    case None => NoVariable
    case Some(start) =>
      var tail := s[start + 2..];
      match Find(tail, CLOSE)
      case None => NotClosed(s[..start], tail)
      case Some(end) => Found(s[..start], tail[..end], tail[end + 2..])
  }

  /** The loop below, as a recursion on what is left of the template. */
  function Render(cx: ToolContext, template: string): Rendering
    decreases |template|
  {
    match Next(template)
    case NoVariable => Rendered(template)
    case NotClosed(_, _) => Failed(Unclosed)
    case Found(text, name, rest) =>
      var value := ValueOf(cx, Trim(name));
      if value.Failed? then value else Render(cx, rest).After(text + value.text)
  }

  /** `render_template`. */
  method RenderTemplate(template: string, cx: ToolContext) returns (r: Rendering)
    ensures r == Render(cx, template)
  {
    var rendered, rest := "", template;
    ghost var expected := Render(cx, template);
    var open := Find(rest, OPEN);
    while open.Some?
      invariant open == Find(rest, OPEN)
      invariant expected == Render(cx, rest).After(rendered)
      decreases |rest|
    {
      ghost var first := Next(rest);
      var start := open.value;
      var tail := rest[start + 2..];
      var end := Find(tail, CLOSE);
      if end.None? {
        assert first.NotClosed?;
        return Failed(Unclosed);
      }
      assert first == Found(rest[..start], tail[..end.value], tail[end.value + 2..]);
      var value := ValueOf(cx, Trim(tail[..end.value]));
      if value.Failed? {
        return value;
      }
      AfterTwice(Render(cx, first.rest), rendered, first.text, value.text);
      rendered := rendered + rest[..start];
      rendered := rendered + value.text;
      rest := tail[end.value + 2..];
      open := Find(rest, OPEN);
    }
    r := Rendered(rendered + rest);
  }

  lemma AfterTwice(r: Rendering, a: string, b: string, c: string)
    ensures r.After(b + c).After(a) == r.After(a + b + c)
  {
    if r.Rendered? {
      assert a + (b + c + r.text) == a + b + c + r.text;
    }
  }

  // ---------------------------------------------------------------- the grammar

  /** Literals and variables in turn, to the end of the text or to a marker that is not closed. */
  datatype Template =
    | End(text: string)
    | OpenEnd(text: string, tail: string)
    | Variable(text: string, name: string, rest: Template)

  function Opened(text: string, tail: string): string {
    text + (OPEN + tail)
  }

  function Closed(name: string, rest: string): string {
    name + (CLOSE + rest)
  }

  function Print(t: Template): string {
    match t
    case End(text) => text
    case OpenEnd(text, tail) => Opened(text, tail)
    case Variable(text, name, rest) => Opened(text, Closed(name, Print(rest)))
  }

  /** The text holds no opening marker and makes none with the one after it. */
  ghost predicate Literal(text: string) {
    Lacks(text + "{", OPEN)
  }

  /** The name holds no closing marker and makes none with the one after it. */
  ghost predicate Name(name: string) {
    Lacks(name + "}", CLOSE)
  }

  ghost predicate WellFormed(t: Template) {
    match t
    case End(text) => Lacks(text, OPEN)
    case OpenEnd(text, tail) => Literal(text) && Lacks(tail, CLOSE)
    case Variable(text, name, rest) => Literal(text) && Name(name) && WellFormed(rest)
  }

  /** The literals and the values, in order; the first thing without a value is the error. */
  function Meaning(cx: ToolContext, t: Template): Rendering {
    match t
    case End(text) => Rendered(text)
    case OpenEnd(_, _) => Failed(Unclosed)
    case Variable(text, name, rest) =>
      var value := ValueOf(cx, Trim(name));
      if value.Failed? then value else Meaning(cx, rest).After(text + value.text)
  }

  function Parse(s: string): Template
    decreases |s|
  {
    match Next(s)
    case NoVariable => End(s)
    case NotClosed(text, tail) => OpenEnd(text, tail)
    case Found(text, name, rest) => Variable(text, name, Parse(rest))
  }

  /**
   * After `before`, a doubled character is found exactly at its end, if and only if `before` and one
   * such character hold no pair.
   */
  lemma PairAfter(before: string, c: char, rest: string)
    ensures Find(before + ([c, c] + rest), [c, c]) == Some(|before|) <==> Lacks(before + [c], [c, c])
  {
    var s, pair := before + ([c, c] + rest), [c, c];
    var front := before + [c];
    assert s[..|front|] == front;
    assert s[|before|..|before| + 2] == pair;
    forall j: nat | j < |before|
      ensures At(s, pair, j) <==> At(front, pair, j)
    {
      assert s[j..j + 2] == s[..|front|][j..j + 2];
    }
    if Lacks(front, pair) {
      FindFirst(s, pair, |before|);
    }
    if Find(s, pair) == Some(|before|) {
      FindSound(s, pair);
      forall j: nat
        ensures !At(front, pair, j)
      {
        assert j >= |before| ==> j + 2 > |front|;
      }
    }
  }

  lemma PairSplits(s: string, c: char)
    requires Find(s, [c, c]).Some?
    ensures var i := Find(s, [c, c]).value;
            s == s[..i] + ([c, c] + s[i + 2..]) && Lacks(s[..i] + [c], [c, c])
  {
    var i := Find(s, [c, c]).value;
    FindSound(s, [c, c]);
    assert s == s[..i] + ([c, c] + s[i + 2..]);
    PairAfter(s[..i], c, s[i + 2..]);
  }

  lemma LacksFind(s: string, pattern: string)
    ensures Find(s, pattern) == None <==> Lacks(s, pattern)
  {
    FindSound(s, pattern);
  }

  // ---------------------------------------------------------------- the first variable

  lemma OpenFound(text: string, tail: string)
    requires Literal(text)
    ensures var s := Opened(text, tail);
            Find(s, OPEN) == Some(|text|) && s[..|text|] == text && s[|text| + 2..] == tail
  {
    assert OPEN == ['{', '{'] && "{" == ['{'];
    PairAfter(text, '{', tail);
  }

  lemma CloseFound(name: string, rest: string)
    requires Name(name)
    ensures var s := Closed(name, rest);
            Find(s, CLOSE) == Some(|name|) && s[..|name|] == name && s[|name| + 2..] == rest
  {
    assert CLOSE == ['}', '}'] && "}" == ['}'];
    PairAfter(name, '}', rest);
  }

  lemma OpenSplits(s: string)
    requires Find(s, OPEN).Some?
    ensures var i := Find(s, OPEN).value; s == Opened(s[..i], s[i + 2..]) && Literal(s[..i])
  {
    assert OPEN == ['{', '{'] && "{" == ['{'];
    PairSplits(s, '{');
  }

  lemma CloseSplits(s: string)
    requires Find(s, CLOSE).Some?
    ensures var i := Find(s, CLOSE).value; s == Closed(s[..i], s[i + 2..]) && Name(s[..i])
  {
    assert CLOSE == ['}', '}'] && "}" == ['}'];
    PairSplits(s, '}');
  }

  lemma NextOfVariable(text: string, name: string, rest: string)
    requires Literal(text) && Name(name)
    ensures Next(Opened(text, Closed(name, rest))) == Found(text, name, rest)
  {
    OpenFound(text, Closed(name, rest));
    CloseFound(name, rest);
  }

  lemma NextOfOpenEnd(text: string, tail: string)
    requires Literal(text) && Lacks(tail, CLOSE)
    ensures Next(Opened(text, tail)) == NotClosed(text, tail)
  {
    OpenFound(text, tail);
    LacksFind(tail, CLOSE);
  }

  lemma NextOfEnd(text: string)
    ensures Next(text) == NoVariable <==> Lacks(text, OPEN)
  {
    LacksFind(text, OPEN);
  }

  lemma NextFits(s: string)
    ensures match Next(s)
            case NoVariable => Lacks(s, OPEN)
            case NotClosed(text, tail) => s == Opened(text, tail) && Literal(text) && Lacks(tail, CLOSE)
            case Found(text, name, rest) => s == Opened(text, Closed(name, rest)) && Literal(text) && Name(name)
  {
    NextOfEnd(s);
    var open := Find(s, OPEN);
    if open.Some? {
      OpenSplits(s);
      var tail := s[open.value + 2..];
      LacksFind(tail, CLOSE);
      if Find(tail, CLOSE).Some? {
        CloseSplits(tail);
      }
    }
  }

  // ---------------------------------------------------------------- rendering, parsing and printing

  /** Rendering a printed template gives its literals and values: what a value holds is not scanned. */
  lemma {:induction false} RenderPrinted(cx: ToolContext, t: Template)
    requires WellFormed(t)
    ensures Render(cx, Print(t)) == Meaning(cx, t)
  {
    match t
    case End(text) =>
      NextOfEnd(text);
    case OpenEnd(text, tail) =>
      NextOfOpenEnd(text, tail);
    case Variable(text, name, rest) =>
      NextOfVariable(text, name, Print(rest));
      RenderPrinted(cx, rest);
  }

  /** A well-formed template is what its text parses to. */
  lemma {:induction false} ParsePrint(t: Template)
    requires WellFormed(t)
    ensures Parse(Print(t)) == t
  {
    match t
    case End(text) =>
      NextOfEnd(text);
    case OpenEnd(text, tail) =>
      NextOfOpenEnd(text, tail);
    case Variable(text, name, rest) =>
      NextOfVariable(text, name, Print(rest));
      ParsePrint(rest);
  }

  /** Every text is the print of a well-formed template. */
  lemma {:induction false} PrintParse(s: string)
    ensures WellFormed(Parse(s)) && Print(Parse(s)) == s
    decreases |s|
  {
    NextFits(s);
    var first := Next(s);
    if first.Found? {
      PrintParse(first.rest);
    }
  }

  /** The renderer computes the meaning of the one template its input is the print of. */
  lemma RenderIsMeaning(cx: ToolContext, s: string)
    ensures Render(cx, s) == Meaning(cx, Parse(s))
    ensures forall t :: WellFormed(t) && Print(t) == s ==> t == Parse(s)
  {
    PrintParse(s);
    RenderPrinted(cx, Parse(s));
    forall t | WellFormed(t) && Print(t) == s
      ensures t == Parse(s)
    {
      ParsePrint(t);
    }
  }

  // ---------------------------------------------------------------- what a variable stands for

  /** The value of each name there is, and of no other. */
  lemma ValueOfIs(cx: ToolContext, name: string)
    ensures var value := ValueOf(cx, name);
            && (name == "token" ==> value == Rendered(cx.tokenValue))
            && (name == "token_name" ==> value == Rendered(cx.tokenName))
            && (name == "gateway_url" ==> value == Rendered(cx.gatewayUrl))
            && (name == "gateway_host" ==> value == Rendered(cx.gatewayHost))
            && (name == "generated_root" ==> value == Rendered(cx.generatedRoot))
    ensures forall route :: name == "route_url:" + route ==> ValueOf(cx, name) == Rendered(cx.gatewayUrl + "/" + route)
    ensures forall id :: name == "managed_file:" + id ==>
              ValueOf(cx, name) ==
              if id in cx.managedFiles then Rendered(cx.managedFiles[id]) else Failed(UnknownManagedFile(id))
    ensures && name !in {"token", "token_name", "gateway_url", "gateway_host", "generated_root"}
            && (forall route :: name != "route_url:" + route) && (forall id :: name != "managed_file:" + id)
            ==> ValueOf(cx, name) == Failed(UnknownVariable(name))
  {
    StartsWithIff(name, "route_url:");
    StartsWithIff(name, "managed_file:");
    forall route | name == "route_url:" + route
      ensures ValueOf(cx, name) == Rendered(cx.gatewayUrl + "/" + route)
    {
      assert name[0] == 'r';
      assert name[|"route_url:"|..] == route;
    }
    forall id | name == "managed_file:" + id
      ensures ValueOf(cx, name) ==
              if id in cx.managedFiles then Rendered(cx.managedFiles[id]) else Failed(UnknownManagedFile(id))
    {
      assert name[0] == 'm';
      assert name[|"managed_file:"|..] == id;
    }
  }

  /** A variable with white space around its name is rendered as the value of the name. */
  lemma RenderVariable(cx: ToolContext, left: string, name: string, right: string)
    requires AllSpace(left) && AllSpace(right) && Trimmed(name) && Name(left + name + right)
    ensures Render(cx, "{{" + (left + name + right + ("}}" + ""))) == ValueOf(cx, name)
  {
    var padded := left + name + right;
    assert "" + (OPEN + Closed(padded, "")) == "{{" + (padded + ("}}" + ""));
    assert Literal("");
    assert Lacks("", OPEN);
    NextOfVariable("", padded, "");
    NextOfEnd("");
    TrimOfPadded(left, name, right);
    var value := ValueOf(cx, name);
    if value.Rendered? {
      assert "" + value.text + "" == value.text;
    }
  }

  // ---------------------------------------------------------------- when rendering fails

  predicate AllClosed(t: Template) {
    match t
    case End(_) => true
    case OpenEnd(_, _) => false
    case Variable(_, _, rest) => AllClosed(rest)
  }

  predicate AllKnown(cx: ToolContext, t: Template) {
    t.Variable? ==> ValueOf(cx, Trim(t.name)).Rendered? && AllKnown(cx, t.rest)
  }

  lemma {:induction false} MeaningRenderedIff(cx: ToolContext, t: Template)
    ensures Meaning(cx, t).Rendered? <==> AllClosed(t) && AllKnown(cx, t)
    ensures Meaning(cx, t) == Failed(Unclosed) <==> !AllClosed(t) && AllKnown(cx, t)
  {
    if t.Variable? {
      MeaningRenderedIff(cx, t.rest);
    }
  }

  /**
   * Rendering succeeds exactly when every marker is closed and every name is known, and complains of
   * a marker exactly when every name before it is known.
   */
  lemma RenderedIff(cx: ToolContext, s: string)
    ensures Render(cx, s).Rendered? <==> AllClosed(Parse(s)) && AllKnown(cx, Parse(s))
    ensures Render(cx, s) == Failed(Unclosed) <==> !AllClosed(Parse(s)) && AllKnown(cx, Parse(s))
  {
    RenderIsMeaning(cx, s);
    MeaningRenderedIff(cx, Parse(s));
  }
}
