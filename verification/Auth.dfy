/** Finding the client's token among its headers, and the decision of the auth middleware (`auth.rs`). */
module Auth {
  import opened Text
  import opened Utf8
  import opened Base64
  import opened TokenRecords
  import opened Profiles
  import opened Routing
  import opened Headers
  import opened ExtraHeaders

  // ---------------------------------------------------------------- candidates of one header value

  datatype Scheme = Bearer | Token | Basic

  predicate HasScheme(value: string, scheme: string) {
    |scheme| <= |value| && EqIgnoreCase(value[..|scheme|], scheme)
  }

  /** The scheme, whatever its case, and the trimmed rest as it is. */
  function ParseAuthScheme(value: string): Option<(Scheme, string)> {
    if HasScheme(value, "bearer ") then Some((Bearer, Trim(value[7..])))
    else if HasScheme(value, "token ") then Some((Token, Trim(value[6..])))
    else if HasScheme(value, "basic ") then Some((Basic, Trim(value[6..])))
    else None
  }

  function PushUnique(candidates: seq<string>, candidate: string): seq<string> {
    if candidate != "" && candidate !in candidates then candidates + [candidate] else candidates
  }

  /** Both halves of `user:password`, or the whole text if it has no colon. */
  function Halves(text: string): seq<string> {
    var user := UpTo(text, ':');
    if |user| < |text| then PushUnique(PushUnique([], user), text[|user| + 1..])
    else PushUnique([], text)
  }

  function HeaderCandidates(value: string, includeRaw: bool): seq<string> {
    SchemeCandidates(ParseAuthScheme(value), value, includeRaw)
  }

  function SchemeCandidates(scheme: Option<(Scheme, string)>, value: string, includeRaw: bool): seq<string> {
    match scheme
    case Some((Basic, rest)) =>
      (match Decode64(rest)
       case None => []
       case Some(bytes) =>
         match Decode(bytes)
         case None => []
         case Some(text) => Halves(text))
    case Some((_, rest)) => PushUnique([], rest)
    case None => if includeRaw then PushUnique([], Trim(value)) else []
  }

  // ---------------------------------------------------------------- Basic credentials come back

  lemma PrintedIsTrimmed(s: string)
    requires Printed(s)
    ensures Trim(s) == s && Visible(s)
  {
    forall i | 0 <= i < |s|
      ensures !IsSpace(s[i]) && IsVisibleByte(s[i] as int)
    {
      assert 0 <= Value(s[i]);
    }
    TrimOfTrimmed(s);
  }

  lemma BasicVisible(encoded: string)
    requires Visible(encoded)
    ensures Visible("Basic " + encoded)
  {
  }

  lemma OtherScheme(value: string, scheme: string, i: nat)
    requires i < |scheme| <= |value| && LowerChar(value[i]) != LowerChar(scheme[i])
    ensures !HasScheme(value, scheme)
  {
    assert Lower(value[..|scheme|])[i] == LowerChar(value[i]);
    assert Lower(scheme)[i] == LowerChar(scheme[i]);
  }

  lemma BasicScheme(rest: string)
    requires Trim(rest) == rest
    ensures ParseAuthScheme("Basic " + rest) == Some((Basic, rest))
  {
    var value := "Basic " + rest;
    if |value| >= 7 {
      OtherScheme(value, "bearer ", 1);
    }
    OtherScheme(value, "token ", 0);
    assert value[..6] == "Basic " && value[6..] == rest;
    assert Lower("Basic ") == "basic " == Lower("basic ");
  }

  /** After `bearer ` or `token ` in any case comes the token, trimmed and otherwise as it is. */
  lemma TokenCandidate(scheme: string, token: string, includeRaw: bool)
    requires EqIgnoreCase(scheme, "bearer ") || EqIgnoreCase(scheme, "token ")
    ensures HeaderCandidates(scheme + token, includeRaw) == if Trim(token) == "" then [] else [Trim(token)]
  {
    var value := scheme + token;
    if EqIgnoreCase(scheme, "bearer ") {
      assert |scheme| == |Lower(scheme)| == |Lower("bearer ")| == 7;
      assert value[..7] == scheme && value[7..] == token;
    } else {
      assert |scheme| == |Lower(scheme)| == |Lower("token ")| == 6;
      assert value[..6] == scheme && value[6..] == token;
      if |value| >= 7 {
        assert Lower(scheme)[0] == Lower("token ")[0] == LowerChar(value[0]);
        OtherScheme(value, "bearer ", 0);
      }
    }
  }

  /** No scheme stands at its beginning, in any case. */
  ghost predicate NoScheme(text: string) {
    forall scheme, rest :: text == scheme + rest ==>
      Lower(scheme) != "bearer " && Lower(scheme) != "token " && Lower(scheme) != "basic "
  }

  lemma NoSchemeParsed(text: string)
    requires NoScheme(text)
    ensures ParseAuthScheme(text).None?
  {
    assert Lower("bearer ") == "bearer " && Lower("token ") == "token " && Lower("basic ") == "basic ";
    assert |text| >= 7 ==> text == text[..7] + text[7..];
    assert |text| >= 6 ==> text == text[..6] + text[6..];
  }

  /** Without a space there is no scheme. */
  lemma SpaceFreeNoScheme(text: string)
    requires Free(text, ' ')
    ensures NoScheme(text)
  {
    forall scheme, rest | text == scheme + rest
      ensures Lower(scheme) != "bearer " && Lower(scheme) != "token " && Lower(scheme) != "basic "
    {
      if |scheme| == 6 || |scheme| == 7 {
        var last := |scheme| - 1;
        assert text[last] == scheme[last] && Lower(scheme)[last] == LowerChar(scheme[last]) != ' ';
      }
    }
  }

  /** A text without a scheme is itself the candidate where raw values count, and none elsewhere. */
  lemma RawCandidate(text: string)
    requires NoScheme(text)
    ensures HeaderCandidates(text, true) == if Trim(text) == "" then [] else [Trim(text)]
    ensures HeaderCandidates(text, false) == []
  {
    NoSchemeParsed(text);
  }

  /** After `basic ` in any case comes the encoding of a text, whose halves are the candidates, or nothing. */
  lemma BasicCandidates(scheme: string, rest: string, includeRaw: bool)
    requires EqIgnoreCase(scheme, "basic ")
    ensures forall text :: Trim(rest) == Encode64(Encode(text)) ==>
              HeaderCandidates(scheme + rest, includeRaw) == Halves(text)
    ensures (forall text :: Trim(rest) != Encode64(Encode(text))) ==> HeaderCandidates(scheme + rest, includeRaw) == []
  {
    AnyCaseBasic(scheme, rest);
    forall text | Trim(rest) == Encode64(Encode(text))
      ensures HeaderCandidates(scheme + rest, includeRaw) == Halves(text)
    {
      Decode64Encode64(Encode(text));
      DecodeEncode(text);
    }
    if bytes :| Decode64(Trim(rest)) == Some(bytes) {
      Encode64Decode64(Trim(rest));
      if text :| Decode(bytes) == Some(text) {
        EncodeDecoded(bytes);
        assert Trim(rest) == Encode64(Encode(text));
      }
    }
  }

  lemma AnyCaseBasic(scheme: string, rest: string)
    requires EqIgnoreCase(scheme, "basic ")
    ensures ParseAuthScheme(scheme + rest) == Some((Basic, Trim(rest)))
  {
    var value := scheme + rest;
    assert |scheme| == |Lower(scheme)| == |Lower("basic ")| == 6;
    assert value[..6] == scheme && value[6..] == rest;
    assert LowerChar(value[0]) == Lower(scheme)[0] == Lower("basic ")[0];
    assert LowerChar(value[1]) == Lower(scheme)[1] == Lower("basic ")[1];
    if |value| >= 7 {
      OtherScheme(value, "bearer ", 1);
    }
    OtherScheme(value, "token ", 0);
  }

  /** A text without a colon is its own and only half. */
  lemma HalvesOfWhole(text: string)
    requires Free(text, ':')
    ensures Halves(text) == if text == "" then [] else [text]
  {
    UpToOf(text, ':', "");
    assert text + "" == text;
  }

  /** What `header_candidate_tokens` makes of a Basic header is the halves of the text encoded in it. */
  lemma BasicDecodes(text: string, includeRaw: bool)
    ensures HeaderCandidates("Basic " + Encode64(Encode(text)), includeRaw) == Halves(text)
    ensures Visible("Basic " + Encode64(Encode(text)))
  {
    var encoded := Encode64(Encode(text));
    Encode64Printed(Encode(text));
    PrintedIsTrimmed(encoded);
    BasicVisible(encoded);
    BasicScheme(encoded);
    Decode64Encode64(Encode(text));
    DecodeEncode(text);
  }

  lemma HalvesOfPair(user: string, credential: string)
    requires Free(user, ':')
    ensures Halves(user + ":" + credential) == PushUnique(PushUnique([], user), credential)
  {
    assert user + ":" + credential == user + (":" + credential);
    UpToOf(user, ':', ":" + credential);
    assert (user + ":" + credential)[|user| + 1..] == credential;
  }

  /** A text that equals itself rotated by a colon consists of colons. */
  lemma {:induction false} RotatedColons(u: string, i: nat)
    requires u != "" && u == u[1..] + ":" && i < |u|
    ensures u[i] == ':'
    decreases |u| - i
  {
    if i + 1 < |u| {
      RotatedColons(u, i + 1);
      assert u[i] == (u[1..] + ":")[i] == u[i + 1];
    } else {
      assert u[i] == (u[1..] + ":")[i];
    }
  }

  lemma HalvesOfColons(user: string)
    requires user != "" && Only(user, ':')
    ensures Halves(user + ":" + "") == PushUnique(PushUnique([], user), "")
  {
    var text := user + ":" + "";
    assert text == "" + text;
    UpToOf("", ':', text);
    assert text[1..] == user by {
      assert forall i :: 0 <= i < |text| ==> text[i] == ':';
    }
    assert PushUnique([], "") == [];
  }

  /** A text whose first colon comes after something is split before the end of the user. */
  lemma HalvesOfLater(text: string, user: string, credential: string)
    requires var first := UpTo(text, ':'); first != "" && first != user && |first| < |text| && user != ""
    ensures Halves(text) != PushUnique(PushUnique([], user), credential)
  {
    var first := UpTo(text, ':');
    assert PushUnique([], first) == [first] && PushUnique([], user) == [user];
    assert Halves(text)[0] == first;
    assert PushUnique([user], credential)[0] == user;
  }

  /** And one that begins with a colon is what follows it. */
  lemma HalvesOfLeading(user: string, credential: string)
    requires user != "" && user[0] == ':' && !(credential == "" && Only(user, ':'))
    ensures Halves(user + ":" + credential) != PushUnique(PushUnique([], user), credential)
  {
    var text := user + ":" + credential;
    var rest := text[1..];
    assert UpTo(text, ':') == "";
    assert rest[|user| - 1] == ':';
    assert Halves(text) == [rest];
    assert PushUnique([], user) == [user];
    assert PushUnique([user], credential)[0] == user;
    if rest == user {
      assert |credential| == 0;
      assert user == user[1..] + ":";
      forall i | 0 <= i < |user|
        ensures user[i] == ':'
      {
        RotatedColons(user, i);
      }
    }
  }

  lemma HalvesOfOther(user: string, credential: string)
    requires !Free(user, ':') && !(credential == "" && Only(user, ':'))
    ensures Halves(user + ":" + credential) != PushUnique(PushUnique([], user), credential)
  {
    var text := user + ":" + credential;
    if user[0] == ':' {
      HalvesOfLeading(user, credential);
    } else {
      UpToSplits(text, ':');
      var k :| 0 <= k < |user| && user[k] == ':';
      var first := UpTo(text, ':');
      assert text[k] == ':';
      assert |first| <= k by {
        assert forall i :: 0 <= i < |first| ==> first[i] == text[i];
      }
      HalvesOfLater(text, user, credential);
    }
  }

  /**
   * The value the gateway builds for HTTP Basic is parsed back to the user and the credential,
   * empties and repetitions dropped, exactly when the user has no colon (or is nothing but colons
   * before an empty credential).
   */
  lemma BasicRoundTripIff(src: CredentialSource, user: string, credential: string, includeRaw: bool)
    requires src.basicUser == Some(user)
    ensures FromStr(InjectText(src, credential)).Some?
    ensures ToStr(FromStr(InjectText(src, credential)).value) == Some(InjectText(src, credential))
    ensures HeaderCandidates(InjectText(src, credential), includeRaw) == PushUnique(PushUnique([], user), credential)
            <==> Free(user, ':') || (credential == "" && Only(user, ':'))
  {
    BasicDecodes(user + ":" + credential, includeRaw);
    VisibleRoundTrip(InjectText(src, credential));
    if Free(user, ':') {
      HalvesOfPair(user, credential);
    } else if credential == "" && Only(user, ':') {
      HalvesOfColons(user);
    } else {
      HalvesOfOther(user, credential);
    }
  }

  // ---------------------------------------------------------------- candidates of a request

  function PushAll(candidates: seq<string>, more: seq<string>): seq<string> {
    if more == [] then candidates else PushUnique(PushAll(candidates, more[..|more| - 1]), more[|more| - 1])
  }

  /** The candidates in all values of one header; a value without a text form is skipped. */
  function ValuesCandidates(values: seq<FieldValue>, includeRaw: bool): seq<string> {
    if values == [] then []
    else
      var before := ValuesCandidates(values[..|values| - 1], includeRaw);
      match ToStr(values[|values| - 1])
      case None => before
      case Some(text) => PushAll(before, HeaderCandidates(text, includeRaw))
  }

  function FieldCandidates(h: Fields, header: string, includeRaw: bool): seq<string> {
    match NormName(header)
    case None => []
    case Some(n) => if n in h then ValuesCandidates(h[n], includeRaw) else []
  }

  /** A token to try, and the header it was found in. */
  datatype Candidate = Candidate(token: string, header: string)

  function Tagged(tokens: seq<string>, header: string): seq<Candidate> {
    seq(|tokens|, i requires 0 <= i < |tokens| => Candidate(tokens[i], header))
  }

  function SourcesCandidates(h: Fields, sources: seq<CredentialSource>): seq<Candidate> {
    if sources == [] then []
    else
      var header := Lower(sources[|sources| - 1].injectHeader);
      SourcesCandidates(h, sources[..|sources| - 1]) + Tagged(FieldCandidates(h, header, true), header)
  }

  /** The route's own headers first, raw values included, then the two authorization headers. */
  function RequestCandidates(h: Fields, sources: seq<CredentialSource>): seq<Candidate> {
    SourcesCandidates(h, sources)
    + Tagged(FieldCandidates(h, "authorization", false), "authorization")
    + Tagged(FieldCandidates(h, "proxy-authorization", false), "proxy-authorization")
  }

  // ---------------------------------------------------------------- what the candidates are

  /** The value has a text form that yields this token. */
  predicate Yields(value: FieldValue, includeRaw: bool, token: string) {
    ToStr(value).Some? && token in HeaderCandidates(ToStr(value).value, includeRaw)
  }

  predicate YieldedBy(values: seq<FieldValue>, includeRaw: bool, token: string) {
    exists i :: 0 <= i < |values| && Yields(values[i], includeRaw, token)
  }

  lemma YieldedByMore(before: seq<FieldValue>, value: FieldValue, includeRaw: bool, token: string)
    ensures YieldedBy(before + [value], includeRaw, token) <==>
            YieldedBy(before, includeRaw, token) || Yields(value, includeRaw, token)
  {
    var values := before + [value];
    assert values[|before|] == value;
    if YieldedBy(before, includeRaw, token) {
      var i :| 0 <= i < |before| && Yields(before[i], includeRaw, token);
      assert values[i] == before[i];
    }
  }

  /** A value of the header in the request yields this token. */
  ghost predicate Presented(h: Fields, header: string, includeRaw: bool, token: string) {
    var name := NormName(header);
    name.Some? && name.value in h && YieldedBy(h[name.value], includeRaw, token)
  }

  predicate NoRepeats(tokens: seq<string>) {
    && (forall i :: 0 <= i < |tokens| ==> tokens[i] != "")
    && forall i, j :: 0 <= i < j < |tokens| ==> tokens[i] != tokens[j]
  }

  lemma PushUniqueIs(candidates: seq<string>, candidate: string)
    requires NoRepeats(candidates)
    ensures NoRepeats(PushUnique(candidates, candidate)) && candidates <= PushUnique(candidates, candidate)
    ensures forall t :: t in PushUnique(candidates, candidate) <==> t in candidates || (t == candidate && t != "")
  {
  }

  lemma {:induction false} PushAllIs(candidates: seq<string>, more: seq<string>)
    requires NoRepeats(candidates)
    ensures NoRepeats(PushAll(candidates, more)) && candidates <= PushAll(candidates, more)
    ensures forall t :: t in PushAll(candidates, more) <==> t in candidates || (t in more && t != "")
    decreases |more|
  {
    if more != [] {
      var last := |more| - 1;
      PushAllIs(candidates, more[..last]);
      PushUniqueIs(PushAll(candidates, more[..last]), more[last]);
      assert more == more[..last] + [more[last]];
    }
  }

  lemma HalvesDistinct(text: string)
    ensures NoRepeats(Halves(text))
  {
    var user := UpTo(text, ':');
    PushUniqueIs([], text);
    PushUniqueIs([], user);
    if |user| < |text| {
      PushUniqueIs(PushUnique([], user), text[|user| + 1..]);
    }
  }

  lemma SchemeCandidatesDistinct(scheme: Option<(Scheme, string)>, value: string, includeRaw: bool)
    ensures NoRepeats(SchemeCandidates(scheme, value, includeRaw))
  {
    match scheme
    case Some((Basic, rest)) =>
      if Decode64(rest).Some? && Decode(Decode64(rest).value).Some? {
        HalvesDistinct(Decode(Decode64(rest).value).value);
      }
    case Some((_, rest)) => PushUniqueIs([], rest);
    case None => PushUniqueIs([], Trim(value));
  }

  lemma HeaderCandidatesDistinct(value: string, includeRaw: bool)
    ensures NoRepeats(HeaderCandidates(value, includeRaw))
  {
    SchemeCandidatesDistinct(ParseAuthScheme(value), value, includeRaw);
  }

  lemma {:induction false} ValuesCandidatesDistinct(values: seq<FieldValue>, includeRaw: bool)
    ensures NoRepeats(ValuesCandidates(values, includeRaw))
    decreases |values|
  {
    if values != [] {
      var before, text := values[..|values| - 1], ToStr(values[|values| - 1]);
      ValuesCandidatesDistinct(before, includeRaw);
      if text.Some? {
        PushAllIs(ValuesCandidates(before, includeRaw), HeaderCandidates(text.value, includeRaw));
      }
    }
  }

  lemma {:induction false} ValuesCandidatesAre(values: seq<FieldValue>, includeRaw: bool, token: string)
    ensures token in ValuesCandidates(values, includeRaw) <==> YieldedBy(values, includeRaw, token)
    decreases |values|
  {
    if values != [] {
      var before, value := values[..|values| - 1], values[|values| - 1];
      ValuesCandidatesAre(before, includeRaw, token);
      assert before + [value] == values;
      YieldedByMore(before, value, includeRaw, token);
      if ToStr(value).Some? {
        ValuesCandidatesDistinct(before, includeRaw);
        HeaderCandidatesDistinct(ToStr(value).value, includeRaw);
        PushAllIs(ValuesCandidates(before, includeRaw), HeaderCandidates(ToStr(value).value, includeRaw));
      }
    }
  }

  /** Values are tried in order: those of fewer values come first. */
  lemma {:induction false} ValuesCandidatesGrow(values: seq<FieldValue>, includeRaw: bool, k: nat)
    requires k <= |values|
    ensures ValuesCandidates(values[..k], includeRaw) <= ValuesCandidates(values, includeRaw)
    decreases |values|
  {
    if k == |values| {
      assert values[..k] == values;
    } else {
      var before := values[..|values| - 1];
      ValuesCandidatesGrow(before, includeRaw, k);
      assert before[..k] == values[..k];
      ValuesCandidatesDistinct(before, includeRaw);
      var text := ToStr(values[|values| - 1]);
      if text.Some? {
        PushAllIs(ValuesCandidates(before, includeRaw), HeaderCandidates(text.value, includeRaw));
      }
    }
  }

  /** The candidates of a header are the tokens its values yield, none of them empty or twice. */
  lemma FieldCandidatesAre(h: Fields, header: string, includeRaw: bool)
    ensures NoRepeats(FieldCandidates(h, header, includeRaw))
    ensures forall t :: t in FieldCandidates(h, header, includeRaw) <==> Presented(h, header, includeRaw, t)
  {
    var name := NormName(header);
    if name.Some? && name.value in h {
      ValuesCandidatesDistinct(h[name.value], includeRaw);
      forall t {
        ValuesCandidatesAre(h[name.value], includeRaw, t);
      }
    }
  }

  /** The inject header of one of the sources. */
  predicate OfSource(sources: seq<CredentialSource>, header: string) {
    exists i :: 0 <= i < |sources| && Lower(sources[i].injectHeader) == header
  }

  lemma OfSourceMore(before: seq<CredentialSource>, src: CredentialSource, header: string)
    ensures OfSource(before + [src], header) <==> OfSource(before, header) || Lower(src.injectHeader) == header
  {
    var sources := before + [src];
    assert sources[|before|] == src;
    if OfSource(before, header) {
      var i :| 0 <= i < |before| && Lower(before[i].injectHeader) == header;
      assert sources[i] == before[i];
    }
  }

  /** The headers a token is looked for in, and whether one without a scheme counts there. */
  predicate Searched(sources: seq<CredentialSource>, header: string, includeRaw: bool) {
    || (includeRaw && OfSource(sources, header))
    || (!includeRaw && (header == "authorization" || header == "proxy-authorization"))
  }

  lemma TaggedIs(tokens: seq<string>, header: string, c: Candidate)
    ensures c in Tagged(tokens, header) <==> c.token in tokens && c.header == header
  {
    if c.token in tokens && c.header == header {
      var i :| 0 <= i < |tokens| && tokens[i] == c.token;
      assert Tagged(tokens, header)[i] == c;
    }
  }

  lemma {:induction false} SourcesCandidatesAre(h: Fields, sources: seq<CredentialSource>, c: Candidate)
    ensures c in SourcesCandidates(h, sources) <==> Presented(h, c.header, true, c.token) && OfSource(sources, c.header)
    decreases |sources|
  {
    if sources != [] {
      var before, src := sources[..|sources| - 1], sources[|sources| - 1];
      var header := Lower(src.injectHeader);
      SourcesCandidatesAre(h, before, c);
      assert before + [src] == sources;
      OfSourceMore(before, src, c.header);
      TaggedIs(FieldCandidates(h, header, true), header, c);
      FieldCandidatesAre(h, header, true);
    }
  }

  /** A request's candidates are the tokens presented in the headers searched, each with its header. */
  lemma RequestCandidatesAre(h: Fields, sources: seq<CredentialSource>, c: Candidate)
    ensures c in RequestCandidates(h, sources) <==>
            exists includeRaw :: Searched(sources, c.header, includeRaw) && Presented(h, c.header, includeRaw, c.token)
  {
    SourcesCandidatesAre(h, sources, c);
    TaggedIs(FieldCandidates(h, "authorization", false), "authorization", c);
    TaggedIs(FieldCandidates(h, "proxy-authorization", false), "proxy-authorization", c);
    FieldCandidatesAre(h, "authorization", false);
    FieldCandidatesAre(h, "proxy-authorization", false);
    assert Searched(sources, c.header, false) <==> c.header == "authorization" || c.header == "proxy-authorization";
    assert Searched(sources, c.header, true) <==> OfSource(sources, c.header);
  }

  /** And they are tried source by source in the route's order, the two authorization headers last. */
  lemma {:induction false} SourcesComeInOrder(h: Fields, sources: seq<CredentialSource>, k: nat)
    requires k <= |sources|
    ensures SourcesCandidates(h, sources[..k]) <= SourcesCandidates(h, sources) <= RequestCandidates(h, sources)
    decreases |sources|
  {
    if k < |sources| {
      var before := sources[..|sources| - 1];
      SourcesComeInOrder(h, before, k);
      assert before[..k] == sources[..k];
    } else {
      assert sources[..k] == sources;
    }
  }

  method PushEach(before: seq<string>, more: seq<string>) returns (candidates: seq<string>)
    ensures candidates == PushAll(before, more)
  {
    candidates := before;
    for j := 0 to |more|
      invariant candidates == PushAll(before, more[..j])
    {
      assert more[..j + 1][..j] == more[..j];
      candidates := PushUnique(candidates, more[j]);
    }
    assert more[..|more|] == more;
  }

  method ExtractCandidateTokensFromHeader(h: Fields, header: string, includeRaw: bool) returns (candidates: seq<string>)
    ensures candidates == FieldCandidates(h, header, includeRaw)
    ensures NoRepeats(candidates)
    ensures forall t :: t in candidates <==> Presented(h, header, includeRaw, t)
  {
    candidates := [];
    var name := NormName(header);
    if name.Some? && name.value in h {
      var values := h[name.value];
      for i := 0 to |values|
        invariant candidates == ValuesCandidates(values[..i], includeRaw)
      {
        assert values[..i + 1][..i] == values[..i];
        var text := ToStr(values[i]);
        if text.Some? {
          candidates := PushEach(candidates, HeaderCandidates(text.value, includeRaw));
        }
      }
      assert values[..|values|] == values;
    }
    FieldCandidatesAre(h, header, includeRaw);
  }

  method RegistryAuthCandidates(h: Fields, sources: seq<CredentialSource>) returns (candidates: seq<Candidate>)
    ensures candidates == RequestCandidates(h, sources)
    ensures forall c :: c in candidates <==>
              exists includeRaw ::
                Searched(sources, c.header, includeRaw) && Presented(h, c.header, includeRaw, c.token)
  {
    forall c {
      RequestCandidatesAre(h, sources, c);
    }
    candidates := [];
    for i := 0 to |sources|
      invariant candidates == SourcesCandidates(h, sources[..i])
    {
      assert sources[..i + 1][..i] == sources[..i];
      var header := Lower(sources[i].injectHeader);
      var found := ExtractCandidateTokensFromHeader(h, header, true);
      candidates := candidates + Tagged(found, header);
    }
    assert sources[..|sources|] == sources;
    var found := ExtractCandidateTokensFromHeader(h, "authorization", false);
    candidates := candidates + Tagged(found, "authorization");
    found := ExtractCandidateTokensFromHeader(h, "proxy-authorization", false);
    candidates := candidates + Tagged(found, "proxy-authorization");
  }

  // ---------------------------------------------------------------- a request with one credential header

  /** Of the headers a token is looked for in, the request has `authorization` alone, with this text. */
  ghost predicate OnlyAuthorization(h: Fields, sources: seq<CredentialSource>, text: string) {
    && "authorization" in h && h["authorization"] == [Encode(text)]
    && "proxy-authorization" !in h
    && forall i :: 0 <= i < |sources| && NormName(sources[i].injectHeader).Some? ==>
         NormName(sources[i].injectHeader).value !in h || NormName(sources[i].injectHeader).value == "authorization"
  }

  lemma {:induction false} LowerTwice(s: string)
    ensures Lower(Lower(s)) == Lower(s)
  {
    assert |Lower(s)| == |s|;
    forall i | 0 <= i < |s|
      ensures Lower(Lower(s))[i] == Lower(s)[i]
    {
    }
  }

  lemma NormOfLower(s: string)
    ensures NormName(Lower(s)).Some? ==> NormName(s).Some? && NormName(s).value == Lower(s)
    ensures NormName(Lower(s)).Some? ==> NormName(Lower(s)).value == Lower(s)
  {
    LowerTwice(s);
    if NormName(Lower(s)).Some? {
      forall i | 0 <= i < |s|
        ensures IsTokenChar(s[i])
      {
        assert IsTokenChar(Lower(s)[i]);
      }
    }
  }

  lemma OneValueYields(text: string, includeRaw: bool, token: string)
    requires Visible(text)
    ensures YieldedBy([Encode(text)], includeRaw, token) <==> token in HeaderCandidates(text, includeRaw)
  {
    VisibleRoundTrip(text);
    YieldedByMore([], Encode(text), includeRaw, token);
    assert [] + [Encode(text)] == [Encode(text)];
  }

  /** A value with a scheme yields the same tokens wherever it is. */
  lemma SchemeYields(text: string, includeRaw: bool)
    requires ParseAuthScheme(text).Some?
    ensures HeaderCandidates(text, includeRaw) == HeaderCandidates(text, false)
  {
  }

  lemma AuthorizationName()
    ensures NormName("authorization") == Some("authorization")
            && NormName("proxy-authorization") == Some("proxy-authorization")
  {
    assert Lower("authorization") == "authorization";
    assert Lower("proxy-authorization") == "proxy-authorization";
  }

  lemma AuthorizationPresents(h: Fields, sources: seq<CredentialSource>, text: string, includeRaw: bool, token: string)
    requires OnlyAuthorization(h, sources, text) && Visible(text) && ParseAuthScheme(text).Some?
    ensures Presented(h, "authorization", includeRaw, token) <==> token in HeaderCandidates(text, false)
  {
    AuthorizationName();
    SchemeYields(text, includeRaw);
    OneValueYields(text, includeRaw, token);
  }

  lemma OnlyAuthorizationPresents(h: Fields, sources: seq<CredentialSource>, text: string,
                                  header: string, includeRaw: bool, token: string)
    requires OnlyAuthorization(h, sources, text)
    requires Searched(sources, header, includeRaw) && Presented(h, header, includeRaw, token)
    ensures header == "authorization"
  {
    if includeRaw {
      var i :| 0 <= i < |sources| && Lower(sources[i].injectHeader) == header;
      NormOfLower(sources[i].injectHeader);
    } else {
      AuthorizationName();
    }
  }

  /** Then the candidates are exactly the tokens of that text, all of them from `authorization`. */
  lemma OnlyAuthorizationCandidates(h: Fields, sources: seq<CredentialSource>, text: string, c: Candidate)
    requires OnlyAuthorization(h, sources, text) && Visible(text) && ParseAuthScheme(text).Some?
    ensures c in RequestCandidates(h, sources) <==>
            c.header == "authorization" && c.token in HeaderCandidates(text, false)
  {
    RequestCandidatesAre(h, sources, c);
    if c in RequestCandidates(h, sources) {
      var includeRaw :| Searched(sources, c.header, includeRaw) && Presented(h, c.header, includeRaw, c.token);
      OnlyAuthorizationPresents(h, sources, text, c.header, includeRaw, c.token);
      AuthorizationPresents(h, sources, text, includeRaw, c.token);
    } else if c.header == "authorization" {
      AuthorizationPresents(h, sources, text, false, c.token);
      assert Searched(sources, c.header, false);
    }
  }

  /** Of the headers a token is looked for in, the request has the `k`-th source's alone, with this text. */
  ghost predicate OnlySource(h: Fields, sources: seq<CredentialSource>, k: nat, text: string) {
    && k < |sources|
    && var n := Lower(sources[k].injectHeader);
       && NormName(n) == Some(n) && n in h && h[n] == [Encode(text)]
       && ("authorization" in h ==> n == "authorization") && ("proxy-authorization" in h ==> n == "proxy-authorization")
       && forall j :: 0 <= j < |sources| && NormName(sources[j].injectHeader).Some? ==>
            NormName(sources[j].injectHeader).value in h ==> NormName(sources[j].injectHeader).value == n
  }

  lemma OnlySourcePresents(h: Fields, sources: seq<CredentialSource>, k: nat, text: string,
                           header: string, includeRaw: bool, token: string)
    requires OnlySource(h, sources, k, text)
    requires Searched(sources, header, includeRaw) && Presented(h, header, includeRaw, token)
    ensures header == Lower(sources[k].injectHeader)
  {
    if includeRaw {
      var i :| 0 <= i < |sources| && Lower(sources[i].injectHeader) == header;
      NormOfLower(sources[i].injectHeader);
    } else {
      AuthorizationName();
    }
  }

  lemma SourcePresents(h: Fields, sources: seq<CredentialSource>, k: nat, text: string, includeRaw: bool, token: string)
    requires OnlySource(h, sources, k, text) && Visible(text) && Trimmed(text) && text != "" && NoScheme(text)
    ensures Presented(h, Lower(sources[k].injectHeader), includeRaw, token) <==> includeRaw && token == text
  {
    OneValueYields(text, includeRaw, token);
    RawCandidate(text);
    TrimOfTrimmed(text);
  }

  /** A token alone in the header of a source is presented as it is, in that header, and nothing else is. */
  lemma RawRequest(h: Fields, sources: seq<CredentialSource>, k: nat, token: string)
    requires OnlySource(h, sources, k, token) && Visible(token) && Trimmed(token) && token != "" && NoScheme(token)
    ensures forall c :: c in RequestCandidates(h, sources) <==> c == Candidate(token, Lower(sources[k].injectHeader))
  {
    forall c
      ensures c in RequestCandidates(h, sources) <==> c == Candidate(token, Lower(sources[k].injectHeader))
    {
      RawRequestCandidate(h, sources, k, token, c);
    }
  }

  lemma RawRequestCandidate(h: Fields, sources: seq<CredentialSource>, k: nat, token: string, c: Candidate)
    requires OnlySource(h, sources, k, token) && Visible(token) && Trimmed(token) && token != "" && NoScheme(token)
    ensures c in RequestCandidates(h, sources) <==> c == Candidate(token, Lower(sources[k].injectHeader))
  {
    var header := Lower(sources[k].injectHeader);
    SourcePresents(h, sources, k, token, true, token);
    assert OfSource(sources, header);
    assert Searched(sources, header, true);
    RequestCandidatesAre(h, sources, c);
    if c in RequestCandidates(h, sources) {
      var includeRaw :| Searched(sources, c.header, includeRaw) && Presented(h, c.header, includeRaw, c.token);
      OnlySourcePresents(h, sources, k, token, c.header, includeRaw, c.token);
      SourcePresents(h, sources, k, token, includeRaw, c.token);
    }
  }

  lemma BearerCandidate(token: string, includeRaw: bool)
    requires Trimmed(token) && token != ""
    ensures ParseAuthScheme("Bearer " + token).Some? && HeaderCandidates("Bearer " + token, includeRaw) == [token]
  {
    assert Lower("Bearer ") == "bearer " == Lower("bearer ");
    TokenCandidate("Bearer ", token, includeRaw);
    TrimOfTrimmed(token);
    assert ("Bearer " + token)[..7] == "Bearer ";
  }

  /** `Authorization: Bearer T` presents T and nothing else. */
  lemma BearerRequest(h: Fields, sources: seq<CredentialSource>, token: string)
    requires OnlyAuthorization(h, sources, "Bearer " + token) && Visible(token) && Trimmed(token) && token != ""
    ensures forall c :: c in RequestCandidates(h, sources) <==> c == Candidate(token, "authorization")
  {
    BearerCandidate(token, false);
    forall c {
      OnlyAuthorizationCandidates(h, sources, "Bearer " + token, c);
    }
  }

  lemma BasicText(src: CredentialSource, user: string, credential: string)
    requires src.basicUser == Some(user) && Free(user, ':')
    ensures Visible(InjectText(src, credential)) && ParseAuthScheme(InjectText(src, credential)).Some?
    ensures HeaderCandidates(InjectText(src, credential), false) == PushUnique(PushUnique([], user), credential)
  {
    var encoded := Encode64(Encode(user + ":" + credential));
    BasicRoundTripIff(src, user, credential, false);
    BasicDecodes(user + ":" + credential, false);
    Encode64Printed(Encode(user + ":" + credential));
    PrintedIsTrimmed(encoded);
    BasicScheme(encoded);
  }

  lemma PairIs(user: string, credential: string)
    ensures forall t :: t in PushUnique(PushUnique([], user), credential) <==> t != "" && (t == user || t == credential)
  {
    PushUniqueIs([], user);
    PushUniqueIs(PushUnique([], user), credential);
  }

  /** The Basic value the gateway itself injects presents its user and its credential. */
  lemma BasicRequest(h: Fields, sources: seq<CredentialSource>, src: CredentialSource, user: string,
                     credential: string)
    requires src.basicUser == Some(user) && Free(user, ':')
    requires OnlyAuthorization(h, sources, InjectText(src, credential))
    ensures forall c :: c in RequestCandidates(h, sources) <==>
              c.header == "authorization" && c.token != "" && (c.token == user || c.token == credential)
  {
    BasicText(src, user, credential);
    PairIs(user, credential);
    var text := InjectText(src, credential);
    forall c {
      OnlyAuthorizationCandidates(h, sources, text, c);
    }
  }

  // ---------------------------------------------------------------- authentication

  datatype PhantomAuth = PhantomAuth(header: string, preferredSource: Option<nat>, record: Option<TokenRecord>)

  /** `find_registry_auth`: the first candidate that validates. */
  function FindRegistryAuth(tokens: seq<TokenRecord>, candidates: seq<Candidate>): Option<PhantomAuth> {
    if candidates == [] then None
    else
      match Validate(tokens, candidates[0].token)
      case Some(record) => Some(PhantomAuth(candidates[0].header, None, Some(record)))
      case None => FindRegistryAuth(tokens, candidates[1..])
  }

  /** Candidate `i` validates and none before it does. */
  ghost predicate FirstValid(tokens: seq<TokenRecord>, candidates: seq<Candidate>, i: nat) {
    && i < |candidates| && Validate(tokens, candidates[i].token).Some?
    && forall j :: 0 <= j < i ==> Validate(tokens, candidates[j].token).None?
  }

  lemma {:induction false} FindRegistryAuthIs(tokens: seq<TokenRecord>, candidates: seq<Candidate>)
    ensures match FindRegistryAuth(tokens, candidates)
            case None => forall i :: 0 <= i < |candidates| ==> Validate(tokens, candidates[i].token).None?
            case Some(auth) =>
              exists i: nat :: FirstValid(tokens, candidates, i)
                && auth == PhantomAuth(candidates[i].header, None, Validate(tokens, candidates[i].token))
  {
    if candidates != [] {
      FindRegistryAuthIs(tokens, candidates[1..]);
      if Validate(tokens, candidates[0].token).Some? {
        assert FirstValid(tokens, candidates, 0);
      } else if FindRegistryAuth(tokens, candidates[1..]).Some? {
        var i: nat :| FirstValid(tokens, candidates[1..], i)
          && FindRegistryAuth(tokens, candidates[1..]).value
             == PhantomAuth(candidates[1..][i].header, None, Validate(tokens, candidates[1..][i].token));
        assert FirstValid(tokens, candidates, i + 1) by {
          forall j | 0 <= j < i + 1
            ensures Validate(tokens, candidates[j].token).None?
          {
            assert j > 0 ==> candidates[j] == candidates[1..][j - 1];
          }
        }
      } else {
        forall i | 0 <= i < |candidates|
          ensures Validate(tokens, candidates[i].token).None?
        {
          assert i > 0 ==> candidates[i] == candidates[1..][i - 1];
        }
      }
    }
  }

  lemma FirstValidFound(tokens: seq<TokenRecord>, candidates: seq<Candidate>, i: nat)
    requires FirstValid(tokens, candidates, i)
    ensures FindRegistryAuth(tokens, candidates)
            == Some(PhantomAuth(candidates[i].header, None, Validate(tokens, candidates[i].token)))
  {
    FindRegistryAuthIs(tokens, candidates);
    var j: nat :| FirstValid(tokens, candidates, j) && FindRegistryAuth(tokens, candidates)
      == Some(PhantomAuth(candidates[j].header, None, Validate(tokens, candidates[j].token)));
    assert j == i;
  }

  /** The candidates with another token. */
  function Besides(candidates: seq<Candidate>, token: string): seq<Candidate> {
    if candidates == [] then []
    else if candidates[0].token == token then Besides(candidates[1..], token)
    else [candidates[0]] + Besides(candidates[1..], token)
  }

  lemma {:induction false} BesidesEmptyIff(candidates: seq<Candidate>, token: string)
    ensures Besides(candidates, token) == [] <==> forall c :: c in candidates ==> c.token == token
  {
    if candidates != [] {
      BesidesEmptyIff(candidates[1..], token);
      assert candidates == [candidates[0]] + candidates[1..];
      assert candidates[0] in candidates;
    }
  }

  /** A token that does not validate might as well not be presented. */
  lemma {:induction false} DeadTokenIgnored(tokens: seq<TokenRecord>, candidates: seq<Candidate>, token: string)
    requires Validate(tokens, token).None?
    ensures FindRegistryAuth(tokens, candidates) == FindRegistryAuth(tokens, Besides(candidates, token))
  {
    if candidates != [] {
      DeadTokenIgnored(tokens, candidates[1..], token);
      var rest := Besides(candidates[1..], token);
      assert ([candidates[0]] + rest)[1..] == rest;
    }
  }

  // ---------------------------------------------------------------- the decision

  datatype Decision = Next(auth: PhantomAuth) | Forbidden403 | Unauthorized401 | ProxyAuthRequired407

  function SourcesFor(resolution: Resolution): seq<CredentialSource> {
    if resolution.Resolved? then resolution.entry.sources else []
  }

  /** The route a token must be scoped for. */
  function CanonicalFor(resolution: Resolution, path: string): string {
    if resolution.Resolved? then resolution.entry.canonicalRoute else FirstSegment(path)
  }

  function RegistryAuth(tokens: Option<seq<TokenRecord>>, h: Fields, sources: seq<CredentialSource>)
    : Option<PhantomAuth>
  {
    match tokens
    case None => None
    case Some(records) => FindRegistryAuth(records, RequestCandidates(h, sources))
  }

  /**
   * `auth_middleware`. `tokens` is the registry if there is one; `phantom` is what the fallback
   * token found in the request, if it is configured and presented.
   */
  function Decide(routes: seq<Row>, tokens: Option<seq<TokenRecord>>, phantom: Option<PhantomAuth>, path: string,
                  h: Fields)
    : Decision
  {
    var resolution := ResolveRoute(routes, path);
    match RegistryAuth(tokens, h, SourcesFor(resolution))
    case Some(auth) =>
      if auth.record.Some? && !auth.record.value.AllowsRoute(CanonicalFor(resolution, path)) then Forbidden403
      else Next(auth)
    case None =>
      if phantom.Some? && resolution.Resolved? then Next(phantom.value)
      else if IsGitSmartHttp(path) then Unauthorized401
      else ProxyAuthRequired407
  }

  /** A registry token that authenticates a request is an active record whose token the request holds. */
  lemma RegistryAuthIsGenuine(records: seq<TokenRecord>, h: Fields, sources: seq<CredentialSource>)
    ensures var found := RegistryAuth(Some(records), h, sources);
            found.Some? ==>
              && found.value.record.Some?
              && var r := found.value.record.value;
                 && r in records && r.status == Active
                 && exists i :: 0 <= i < |RequestCandidates(h, sources)|
                      && RequestCandidates(h, sources)[i].header == found.value.header
                      && r.tokenHash == Digest(RequestCandidates(h, sources)[i].token)
  {
    FindRegistryAuthIs(records, RequestCandidates(h, sources));
  }

  // ---------------------------------------------------------------- what becomes of a presented token

  /**
   * A token the client presents under a name that no extra header in use has is still presented under
   * that name upstream exactly when the name is neither an inject header of the route nor the header
   * the token was matched in, or the gateway's own credential reads as the same token.
   */
  lemma PresentedUpstreamIff(h: Fields, sources: seq<CredentialSource>, matched: string, mode: InjectMode,
                             i: nat, credential: string, host: string, n: string, includeRaw: bool, token: string)
    requires i < |sources| && NormName(n) == Some(n) && n != "host"
    requires mode == Header ==> n !in ExtraNames(sources[i].extraHeaders)
    requires Presented(h, n, includeRaw, token)
    ensures Presented(Rewritten(h, sources, matched, mode, sources[i], credential, host), n, includeRaw, token) <==>
            || n !in CredentialNames(sources, matched)
            || (mode == Header && NormName(sources[i].injectHeader) == Some(n)
                && Yields(OrEmpty(FromStr(InjectText(sources[i], credential))), includeRaw, token))
  {
    var out := Rewritten(h, sources, matched, mode, sources[i], credential, host);
    if n in CredentialNames(sources, matched) {
      CredentialHeadersAreOurs(h, sources, matched, mode, i, credential, host, n);
      var v := OrEmpty(FromStr(InjectText(sources[i], credential)));
      YieldedByMore([], v, includeRaw, token);
      assert [] + [v] == [v];
    } else {
      OtherHeadersPass(h, sources, matched, mode, i, credential, host, n);
    }
  }

  lemma NormNameOnce(s: string)
    requires NormName(s).Some?
    ensures NormName(NormName(s).value) == NormName(s)
  {
    LowerTwice(s);
    forall i | 0 <= i < |s|
      ensures IsTokenChar(Lower(s)[i])
    {
      assert IsTokenChar(s[i]);
    }
  }

  /** What the client's value under an extra header's name becomes. */
  lemma JoinedValues(h: Fields, sources: seq<CredentialSource>, matched: string, k: nat, credential: string,
                     host: string, i: nat)
    requires k < |sources| && Distinct(sources[k].extraHeaders) && i < |sources[k].extraHeaders|
    requires var name := NormName(sources[k].extraHeaders[i].0);
             && name.Some? && name != Some("host") && name.value !in CredentialNames(sources, matched)
             && !Absent(h, name.value)
    requires Listable(sources[k].extraHeaders[i].1)
    ensures var out, n := Rewritten(h, sources, matched, Header, sources[k], credential, host),
                          NormName(sources[k].extraHeaders[i].0).value;
            var value := sources[k].extraHeaders[i].1;
            && n in out
            && out[n] == if Listed(h, n, value) then h[n]
                         else if FirstText(h, n).None? then h[n] + [Encode(value)]
                         else [Encode(FirstText(h, n).value + ", " + value)]
  {
    var (name, value) := sources[k].extraHeaders[i];
    var n := NormName(name).value;
    var start := BeforeExtras(h, sources, matched, sources[k], credential);
    assert AgreeAt(start, h, n);
    ExtrasAt(start, sources[k].extraHeaders, i);
    VisibleRoundTrip(value);
    if FirstText(h, n).Some? {
      ExtraText(start, name, value);
    }
  }

  /**
   * Under the name of an extra header that is no credential header, a token the client presents there
   * is still presented upstream exactly when the client's value is not joined with the gateway's, or
   * reads as the same token when it is. The text of a list goes upstream in any case, see
   * `ExtraHeaders.ClientMembersPass`.
   */
  lemma PresentedBesideExtraIff(h: Fields, sources: seq<CredentialSource>, matched: string, k: nat, credential: string,
                                host: string, i: nat, includeRaw: bool, token: string)
    requires k < |sources| && Distinct(sources[k].extraHeaders) && i < |sources[k].extraHeaders|
    requires var name := NormName(sources[k].extraHeaders[i].0);
             && name.Some? && name != Some("host") && name.value !in CredentialNames(sources, matched)
             && Presented(h, name.value, includeRaw, token)
    requires Listable(sources[k].extraHeaders[i].1)
    ensures var n, value := NormName(sources[k].extraHeaders[i].0).value, sources[k].extraHeaders[i].1;
            Presented(Rewritten(h, sources, matched, Header, sources[k], credential, host), n, includeRaw, token) <==>
            || Listed(h, n, value) || FirstText(h, n).None?
            || Yields(Encode(FirstText(h, n).value + ", " + value), includeRaw, token)
  {
    var n, value := NormName(sources[k].extraHeaders[i].0).value, sources[k].extraHeaders[i].1;
    NormNameOnce(sources[k].extraHeaders[i].0);
    JoinedValues(h, sources, matched, k, credential, host, i);
    YieldedByMore(h[n], Encode(value), includeRaw, token);
    if FirstText(h, n).Some? {
      var joined := Encode(FirstText(h, n).value + ", " + value);
      YieldedByMore([], joined, includeRaw, token);
      assert [] + [joined] == [joined];
    }
  }
}
