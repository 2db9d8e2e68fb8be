/** Copies of the phantom token that go upstream with a forwarded request. */
module TokenCopies {
  import opened Text
  import opened Utf8
  import opened TokenRecords
  import opened Profiles
  import opened Routing
  import opened Credentials
  import opened Headers
  import opened ExtraHeaders
  import opened Auth
  import opened Gateway

  /**
   * A copy of the token that authenticated a forwarded request, under a name that no extra header in
   * use has, is forwarded with it exactly when the name is neither an inject header of the route nor
   * the header the token was matched in, or the credential forwarded there reads as the token.
   */
  lemma TokenCopyForwardedIff(cx: Context, path: string, query: string, h: Fields, i: nat, url: string, headers: Fields,
                              n: string, includeRaw: bool)
    ensures ForwardedFor(cx, path, query, h, i, url, headers) ==>
              var entry := ResolveRoute(cx.routes, path).entry;
              var candidate := RequestCandidates(h, entry.sources)[i];
              var record := Validate(cx.tokens.value, candidate.token);
              var c := ResolveCredential(cx.entries, entry, record, None, cx.env).value;
              var src := entry.sources[c.source];
              && NormName(n) == Some(n) && n != "host"
              && (entry.injectMode == Header ==> n !in ExtraNames(src.extraHeaders))
              && Presented(h, n, includeRaw, candidate.token)
              ==>
                (Presented(headers, n, includeRaw, candidate.token) <==>
                  || n !in CredentialNames(entry.sources, candidate.header)
                  || (entry.injectMode == Header && NormName(src.injectHeader) == Some(n)
                      && Yields(OrEmpty(FromStr(InjectText(src, c.value))), includeRaw, candidate.token)))
  {
    if ForwardedFor(cx, path, query, h, i, url, headers) {
      var entry := ResolveRoute(cx.routes, path).entry;
      var candidate := RequestCandidates(h, entry.sources)[i];
      var record := Validate(cx.tokens.value, candidate.token);
      var c := ResolveCredential(cx.entries, entry, record, None, cx.env).value;
      if && NormName(n) == Some(n) && n != "host"
         && (entry.injectMode == Header ==> n !in ExtraNames(entry.sources[c.source].extraHeaders))
         && Presented(h, n, includeRaw, candidate.token) {
        PresentedUpstreamIff(h, entry.sources, candidate.header, entry.injectMode, c.source, c.value,
                             cx.hostOf(url).value, n, includeRaw, candidate.token);
      }
    }
  }

  /** A route without aliases that injects one credential into `authorization` and has no extra header. */
  function PlainEntry(): RouteEntry {
    var src := CredentialSource("E", "authorization", "{}", None, [], [], None);
    RouteEntry("r", "http://u", [src], None, Header, None, Prefix)
  }

  function PlainRecord(token: string): TokenRecord {
    TokenRecord(0, "n", ["r"], false, 0, Active, Digest(token), map[])
  }

  function PlainContext(token: string): Context {
    Context([("r", PlainEntry())], Some([PlainRecord(token)]), map[], _ => Some("k"), _ => Some("u"))
  }

  /** The same token in both authorization headers. */
  function TwoCopies(token: string): Fields {
    map["authorization" := [Encode("Bearer " + token)], "proxy-authorization" := [Encode("Bearer " + token)]]
  }

  lemma TwoCopiesPresented(token: string, n: string, includeRaw: bool)
    requires Visible(token) && Trimmed(token) && token != ""
    requires n == "authorization" || n == "proxy-authorization"
    ensures forall t :: Presented(TwoCopies(token), n, includeRaw, t) <==> t == token
  {
    var text := "Bearer " + token;
    AuthorizationName();
    BearerCandidate(token, includeRaw);
    forall t {
      OneValueYields(text, includeRaw, t);
    }
  }

  lemma TwoCopiesFirst(token: string)
    requires Visible(token) && Trimmed(token) && token != ""
    ensures var candidates := RequestCandidates(TwoCopies(token), PlainEntry().sources);
            candidates != [] && candidates[0] == Candidate(token, "authorization")
  {
    var h, sources := TwoCopies(token), PlainEntry().sources;
    var found := FieldCandidates(h, "authorization", true);
    FieldCandidatesAre(h, "authorization", true);
    TwoCopiesPresented(token, "authorization", true);
    assert token in found;
    assert found[0] in found;
    AuthorizationName();
    assert Lower("authorization") == "authorization";
    assert sources[..0] == [];
    assert SourcesCandidates(h, sources) == [] + Tagged(found, "authorization");
    SourcesComeInOrder(h, sources, 0);
    assert RequestCandidates(h, sources)[0] == SourcesCandidates(h, sources)[0];
  }

  lemma PlainResolves(token: string)
    ensures ResolveRoute(PlainContext(token).routes, "/r") == Resolved(PlainEntry(), "/")
  {
    var routes := PlainContext(token).routes;
    assert routes[1..] == [];
    assert GitEntry(routes).None?;
    SegmentResolves(routes, "/", "r", "");
    assert "/" + "r" + "" == "/r" && "/r"[2..] == "";
  }

  lemma PlainCredential(token: string)
    ensures ResolveCredential(map[], PlainEntry(), Some(PlainRecord(token)), None, PlainContext(token).env)
            == Some(Credential(0, "k"))
  {
    var record, env := Some(PlainRecord(token)), PlainContext(token).env;
    EnvironmentCredentialIff(map[], PlainEntry(), record, None, env, Credential(0, "k"));
  }

  function PlainUrl(): string {
    UpstreamUrl(PlainEntry(), "/", "k", "")
  }

  function PlainHeaders(token: string): Fields {
    var sources := PlainEntry().sources;
    Rewritten(TwoCopies(token), sources, "authorization", Header, sources[0], "k", "u")
  }

  lemma PlainIsFirst(token: string)
    requires Visible(token) && Trimmed(token) && token != ""
    ensures var records := [PlainRecord(token)];
            && FirstValid(records, RequestCandidates(TwoCopies(token), PlainEntry().sources), 0)
            && Validate(records, token) == Some(PlainRecord(token))
  {
    TwoCopiesFirst(token);
  }

  lemma PlainForwarded(token: string)
    requires Visible(token) && Trimmed(token) && token != ""
    ensures ForwardedFor(PlainContext(token), "/r", "", TwoCopies(token), 0, PlainUrl(), PlainHeaders(token))
  {
    PlainResolves(token);
    PlainCredential(token);
    TwoCopiesFirst(token);
    PlainIsFirst(token);
    assert "r" in PlainRecord(token).scope;
  }

  lemma SecondCopyPasses(token: string)
    requires Visible(token) && Trimmed(token) && token != ""
    ensures Presented(PlainHeaders(token), "proxy-authorization", false, token)
  {
    AuthorizationName();
    TwoCopiesPresented(token, "proxy-authorization", false);
    PresentedUpstreamIff(TwoCopies(token), PlainEntry().sources, "authorization", Header, 0, "k", "u",
                         "proxy-authorization", false, token);
    assert "proxy-authorization" !in CredentialNames(PlainEntry().sources, "authorization");
  }

  /**
   * A request on this route with one valid token in both authorization headers is forwarded, and the
   * copy in `proxy-authorization` with it.
   */
  lemma SecondCopyForwarded(token: string)
    requires Visible(token) && Trimmed(token) && token != ""
    ensures var out := Handle(PlainContext(token), None, "/r", "", TwoCopies(token));
            && out == Forwarded(PlainUrl(), PlainHeaders(token))
            && Presented(out.headers, "proxy-authorization", false, token)
  {
    PlainForwarded(token);
    ForwardedForForwards(PlainContext(token), "/r", "", TwoCopies(token), 0, PlainUrl(), PlainHeaders(token));
    SecondCopyPasses(token);
  }
}
