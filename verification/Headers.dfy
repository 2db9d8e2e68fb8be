/** Header maps, and what the proxy does to a client's headers before it forwards them (`proxy.rs`). */
module Headers {
  import opened Text
  import opened Utf8
  import opened Base64
  import opened Profiles

  // ---------------------------------------------------------------- names and values

  predicate IsTokenChar(c: char) {
    'a' <= c <= 'z' || 'A' <= c <= 'Z' || '0' <= c <= '9' || c in "!#$%&'*+-.^_`|~"
  }

  /** `HeaderName::from_bytes`: valid names are compared in lower case. */
  function NormName(s: string): Option<string> {
    if s != "" && forall i :: 0 <= i < |s| ==> IsTokenChar(s[i]) then Some(Lower(s)) else None
  }

  type FieldValue = seq<byte>

  predicate IsValueByte(b: int) {
    (b >= 32 && b != 127) || b == 9
  }

  predicate IsVisibleByte(b: int) {
    32 <= b < 127 || b == 9
  }

  /** `HeaderValue::from_str`. */
  function FromStr(s: string): Option<FieldValue> {
    var v := Encode(s);
    if forall i :: 0 <= i < |v| ==> IsValueByte(v[i]) then Some(v) else None
  }

  /** `HeaderValue::to_str`: only visible ASCII has a text form. */
  function ToStr(v: FieldValue): Option<string> {
    if forall i :: 0 <= i < |v| ==> IsVisibleByte(v[i])
    then Some(seq(|v|, i requires 0 <= i < |v| => v[i] as char))
    else None
  }

  predicate Visible(s: string) {
    forall i :: 0 <= i < |s| ==> IsVisibleByte(s[i] as int)
  }

  /** Visible text is what can be printed in ASCII, and the tab. */
  lemma VisibleIff(s: string)
    ensures Visible(s) <==> forall i :: 0 <= i < |s| ==> s[i] == '\t' || ' ' <= s[i] <= '~'
  {
  }

  /** No control character but the tab. */
  predicate Uncontrolled(s: string) {
    forall i :: 0 <= i < |s| ==> s[i] == '\t' || (' ' <= s[i] && s[i] != '\U{007F}')
  }

  lemma CharBytes(c: char)
    ensures (forall i :: 0 <= i < |EncodeChar(c)| ==> IsValueByte(EncodeChar(c)[i])) <==>
            c == '\t' || (' ' <= c && c != '\U{007F}')
  {
    var n := c as int;
    if n < 0x80 {
      assert EncodeChar(c)[0] == n;
    }
  }

  lemma {:induction false} ValueBytes(s: string)
    ensures (forall i :: 0 <= i < |Encode(s)| ==> IsValueByte(Encode(s)[i])) <==> Uncontrolled(s)
  {
    if s != "" {
      var head, rest := EncodeChar(s[0]), Encode(s[1..]);
      CharBytes(s[0]);
      ValueBytes(s[1..]);
      assert forall i :: 0 <= i < |head| ==> Encode(s)[i] == head[i];
      assert forall i :: 0 <= i < |rest| ==> Encode(s)[|head| + i] == rest[i];
      if Uncontrolled(s) {
        assert Uncontrolled(s[1..]) by {
          assert forall i :: 0 <= i < |s[1..]| ==> s[1..][i] == s[i + 1];
        }
      } else if s[0] == '\t' || (' ' <= s[0] && s[0] != '\U{007F}') {
        var i :| 0 <= i < |s| && !(s[i] == '\t' || (' ' <= s[i] && s[i] != '\U{007F}'));
        assert s[1..][i - 1] == s[i];
      }
    }
  }

  /** A text is a header value, as its own bytes, exactly if it has no control character but the tab. */
  lemma FromStrIs(s: string)
    ensures FromStr(s) == if Uncontrolled(s) then Some(Encode(s)) else None
  {
    ValueBytes(s);
  }

  /** Letters, digits, hyphens and underscores make a header name, compared in lower case. */
  lemma PlainName(s: string)
    requires s != ""
    requires forall i :: 0 <= i < |s| ==>
               'a' <= s[i] <= 'z' || 'A' <= s[i] <= 'Z' || '0' <= s[i] <= '9' || s[i] == '-' || s[i] == '_'
    ensures NormName(s) == Some(Lower(s))
  {
  }

  /** Visible text goes into a header value and comes back. */
  lemma VisibleRoundTrip(s: string)
    requires Visible(s)
    ensures FromStr(s) == Some(Encode(s)) && ToStr(Encode(s)) == Some(s)
  {
    EncodeAscii(s);
    var v := Encode(s);
    assert seq(|v|, i requires 0 <= i < |v| => v[i] as char) == s;
  }

  lemma ToStrVisible(v: FieldValue)
    requires ToStr(v).Some?
    ensures Visible(ToStr(v).value) && Encode(ToStr(v).value) == v
  {
    EncodeAscii(ToStr(v).value);
  }

  /** Only visible text has an encoding with a text form. */
  lemma {:induction false} EncodeVisibleOnly(s: string)
    requires !Visible(s)
    ensures exists i :: 0 <= i < |Encode(s)| && !IsVisibleByte(Encode(s)[i])
  {
    var head, rest := EncodeChar(s[0]), Encode(s[1..]);
    if !IsVisibleByte(s[0] as int) {
      assert Encode(s)[0] == head[0];
    } else {
      EncodeVisibleOnly(s[1..]);
      var i :| 0 <= i < |rest| && !IsVisibleByte(rest[i]);
      assert Encode(s)[|head| + i] == rest[i];
    }
  }

  // ---------------------------------------------------------------- header maps

  /** Lower-case name to its values, in the order they were added. */
  type Fields = map<string, seq<FieldValue>>

  function Appended(h: Fields, n: string, v: FieldValue): Fields {
    h[n := (if n in h then h[n] else []) + [v]]
  }

  /** The names a route's sources and the matched header occupy. */
  function CredentialNames(sources: seq<CredentialSource>, matched: string): set<string> {
    (set i | 0 <= i < |sources| && NormName(sources[i].injectHeader).Some? :: NormName(sources[i].injectHeader).value)
    + NameSet(matched)
  }

  function NameSet(name: string): set<string> {
    match NormName(name)
    case None => {}
    case Some(n) => {n}
  }

  // ---------------------------------------------------------------- extra headers

  /** The members of a comma-separated list. */
  function Members(list: string): seq<string> {
    Trims(Split(list, ','))
  }

  function Trims(parts: seq<string>): seq<string> {
    seq(|parts|, i requires 0 <= i < |parts| => Trim(parts[i]))
  }

  predicate HasMember(list: string, value: string) {
    exists i :: 0 <= i < |Members(list)| && EqIgnoreCase(Members(list)[i], value)
  }

  /** A member is what stands between two commas, trimmed, and its case does not matter. */
  lemma HasMemberIff(list: string, value: string)
    ensures HasMember(list, value) <==>
            exists i :: 0 <= i < |Split(list, ',')| && Lower(Trim(Split(list, ',')[i])) == Lower(value)
  {
    if HasMember(list, value) {
      var i :| 0 <= i < |Members(list)| && EqIgnoreCase(Members(list)[i], value);
      assert Lower(Trim(Split(list, ',')[i])) == Lower(value);
    }
    if i :| 0 <= i < |Split(list, ',')| && Lower(Trim(Split(list, ',')[i])) == Lower(value) {
      assert Members(list)[i] == Trim(Split(list, ',')[i]);
      assert 0 <= i < |Members(list)| && EqIgnoreCase(Members(list)[i], value);
    }
  }

  /** One extra header added to its list, if it is not there yet. */
  function WithExtra(h: Fields, name: string, value: string): Fields {
    match (NormName(name), FromStr(value))
    case (Some(n), Some(v)) =>
      if n !in h || h[n] == [] then h[n := [v]]
      else
        (match ToStr(h[n][0])
         case None => Appended(h, n, v)
         case Some(existing) =>
           if HasMember(existing, value) then h
           else
             match FromStr(existing + ", " + value)
             case Some(combined) => h[n := [combined]]
             case None => Appended(h, n, v))
    case _ => h
  }

  function WithExtras(h: Fields, extras: seq<(string, string)>): Fields {
    if extras == [] then h
    else
      var last := |extras| - 1;
      WithExtra(WithExtras(h, extras[..last]), extras[last].0, extras[last].1)
  }

  // ---------------------------------------------------------------- the whole rewrite

  /** `str::replace("{}", with)`: left to right, what was put in is not looked at again. */
  function Fill(format: string, with: string): string
    decreases |format|
  {
    match Find(format, "{}")
    case None => format
    case Some(i) => format[..i] + with + Fill(format[i + 2..], with)
  }

  function InjectText(src: CredentialSource, credential: string): string {
    match src.basicUser
    case Some(user) => "Basic " + Encode64(Encode(user + ":" + credential))
    case None => Fill(src.format, credential)
  }

  function OrEmpty(v: Option<FieldValue>): FieldValue {
    match v
    case Some(x) => x
    case None => []
  }

  function WithInjected(h: Fields, src: CredentialSource, credential: string): Fields {
    match NormName(src.injectHeader)
    case None => h
    case Some(n) => h[n := [OrEmpty(FromStr(InjectText(src, credential)))]]
  }

  /** The upstream headers, from the client's. */
  function Rewritten(h: Fields, sources: seq<CredentialSource>, matched: string, mode: InjectMode,
                     src: CredentialSource, credential: string, host: string): Fields
  {
    var clean := (h - CredentialNames(sources, matched)) - {"host"};
    var full := if mode == Header then WithExtras(WithInjected(clean, src, credential), src.extraHeaders) else clean;
    full["host" := [OrEmpty(FromStr(host))]]
  }

  /** A header map the proxy edits in place. */
  class HeaderMap {
    var fields: Fields

    constructor (h: Fields)
      ensures fields == h
    {
      fields := h;
    }

    method Remove(name: string)
      modifies this
      ensures fields == old(fields) - NameSet(name)
    {
      match NormName(name)
      case None => assert fields == fields - {};
      case Some(n) => fields := fields - {n};
    }

    method Insert(n: string, v: FieldValue)
      modifies this
      ensures fields == old(fields)[n := [v]]
    {
      fields := fields[n := [v]];
    }

    method Append(n: string, v: FieldValue)
      modifies this
      ensures fields == Appended(old(fields), n, v)
    {
      fields := fields[n := (if n in fields then fields[n] else []) + [v]];
    }

    method RemoveClientCredentialHeaders(sources: seq<CredentialSource>, matched: string)
      modifies this
      ensures fields == old(fields) - CredentialNames(sources, matched)
    {
      for i := 0 to |sources|
        invariant fields == old(fields)
                            - (set k | 0 <= k < i && NormName(sources[k].injectHeader).Some?
                                 :: NormName(sources[k].injectHeader).value)
      {
        Remove(sources[i].injectHeader);
      }
      Remove(matched);
    }

    method InsertExtraHeaders(extras: seq<(string, string)>)
      modifies this
      ensures fields == WithExtras(old(fields), extras)
    {
      for i := 0 to |extras|
        invariant fields == WithExtras(old(fields), extras[..i])
      {
        assert extras[..i + 1][..i] == extras[..i];
        InsertExtraHeader(extras[i].0, extras[i].1);
      }
      assert extras[..|extras|] == extras;
    }

    method InsertExtraHeader(name: string, value: string)
      modifies this
      ensures fields == WithExtra(old(fields), name, value)
    {
      var headerName, headerValue := NormName(name), FromStr(value);
      if headerName.None? || headerValue.None? {
        return;
      }
      var n, v := headerName.value, headerValue.value;
      if n in fields && fields[n] != [] {
        var existing := ToStr(fields[n][0]);
        if existing.None? {
          Append(n, v);
          return;
        }
        if HasMember(existing.value, value) {
          return;
        }
        var combined := FromStr(existing.value + ", " + value);
        match combined
        case Some(c) => Insert(n, c);
        case None => Append(n, v);
      } else {
        Insert(n, v);
      }
    }

    /** The header part of `proxy_handler`. */
    method Rewrite(sources: seq<CredentialSource>, matched: string, mode: InjectMode,
                   src: CredentialSource, credential: string, host: string)
      modifies this
      ensures fields == Rewritten(old(fields), sources, matched, mode, src, credential, host)
    {
      RemoveClientCredentialHeaders(sources, matched);
      fields := fields - {"host"};
      if mode == Header {
        var name := NormName(src.injectHeader);
        if name.Some? {
          Insert(name.value, OrEmpty(FromStr(InjectText(src, credential))));
        }
        InsertExtraHeaders(src.extraHeaders);
      }
      Insert("host", OrEmpty(FromStr(host)));
    }
  }

  // ---------------------------------------------------------------- noninterference

  function ExtraNames(extras: seq<(string, string)>): set<string> {
    set i | 0 <= i < |extras| && NormName(extras[i].0).Some? :: NormName(extras[i].0).value
  }

  lemma {:induction false} ExtrasTouchOnlyTheirNames(h: Fields, extras: seq<(string, string)>, n: string)
    requires n !in ExtraNames(extras)
    ensures n in WithExtras(h, extras) <==> n in h
    ensures n in h ==> WithExtras(h, extras)[n] == h[n]
    decreases |extras|
  {
    if extras != [] {
      var last := |extras| - 1;
      assert n !in ExtraNames(extras[..last]) by {
        assert forall i :: 0 <= i < last ==> extras[..last][i] == extras[i];
      }
      ExtrasTouchOnlyTheirNames(h, extras[..last], n);
    }
  }

  /** The two maps agree but for these names. */
  predicate AgreeExcept(a: Fields, b: Fields, names: set<string>) {
    a - names == b - names
  }

  /**
   * What a client puts under the route's inject headers, under the header its token was found in and
   * under `host` does not reach the upstream.
   */
  lemma ClientCredentialsDoNotInterfere(a: Fields, b: Fields, sources: seq<CredentialSource>, matched: string,
                                        mode: InjectMode, src: CredentialSource, credential: string, host: string)
    requires AgreeExcept(a, b, CredentialNames(sources, matched) + {"host"})
    ensures Rewritten(a, sources, matched, mode, src, credential, host)
            == Rewritten(b, sources, matched, mode, src, credential, host)
  {
    var names := CredentialNames(sources, matched);
    assert (a - names) - {"host"} == a - (names + {"host"});
    assert (b - names) - {"host"} == b - (names + {"host"});
  }

  /** Every other header, repeated values included, passes through unchanged. */
  lemma OtherHeadersPass(h: Fields, sources: seq<CredentialSource>, matched: string, mode: InjectMode,
                         i: nat, credential: string, host: string, n: string)
    requires i < |sources|
    requires n !in CredentialNames(sources, matched) && n != "host"
    requires mode == Header ==> n !in ExtraNames(sources[i].extraHeaders)
    ensures var out := Rewritten(h, sources, matched, mode, sources[i], credential, host);
            (n in out <==> n in h) && (n in h ==> out[n] == h[n])
  {
    var clean := (h - CredentialNames(sources, matched)) - {"host"};
    if mode == Header {
      ExtrasTouchOnlyTheirNames(WithInjected(clean, sources[i], credential), sources[i].extraHeaders, n);
    }
  }

  /**
   * Of the names the client's credentials may be under, the upstream sees only the inject header of
   * the selected source, with the one value the gateway put there; in URL mode it sees none of them.
   */
  lemma CredentialHeadersAreOurs(h: Fields, sources: seq<CredentialSource>, matched: string, mode: InjectMode,
                                 i: nat, credential: string, host: string, n: string)
    requires i < |sources|
    requires n in CredentialNames(sources, matched) && n != "host"
    requires mode == Header ==> n !in ExtraNames(sources[i].extraHeaders)
    ensures var out := Rewritten(h, sources, matched, mode, sources[i], credential, host);
            && (n in out <==> mode == Header && NormName(sources[i].injectHeader) == Some(n))
            && (n in out ==> out[n] == [OrEmpty(FromStr(InjectText(sources[i], credential)))])
  {
    var clean := (h - CredentialNames(sources, matched)) - {"host"};
    if mode == Header {
      ExtrasTouchOnlyTheirNames(WithInjected(clean, sources[i], credential), sources[i].extraHeaders, n);
    }
  }

  predicate AgreeAt(a: Fields, b: Fields, n: string) {
    (n in a <==> n in b) && (n in a ==> a[n] == b[n])
  }

  /** What an extra header does under a name depends on what is there. */
  lemma ExtraLocal(a: Fields, b: Fields, name: string, value: string, n: string)
    requires AgreeAt(a, b, n)
    ensures AgreeAt(WithExtra(a, name, value), WithExtra(b, name, value), n)
  {
  }

  lemma {:induction false} ExtrasLocal(a: Fields, b: Fields, extras: seq<(string, string)>, n: string)
    requires AgreeAt(a, b, n)
    ensures AgreeAt(WithExtras(a, extras), WithExtras(b, extras), n)
    decreases |extras|
  {
    if extras != [] {
      var last := |extras| - 1;
      ExtrasLocal(a, b, extras[..last], n);
      ExtraLocal(WithExtras(a, extras[..last]), WithExtras(b, extras[..last]), extras[last].0, extras[last].1, n);
    }
  }

  /**
   * Under every name the client's credentials may be under, and under `host`, the upstream sees what
   * it would see from a client that sent no header at all.
   */
  lemma CredentialHeadersFromNothing(h: Fields, sources: seq<CredentialSource>, matched: string, mode: InjectMode,
                                     src: CredentialSource, credential: string, host: string, n: string)
    requires n in CredentialNames(sources, matched) || n == "host"
    ensures AgreeAt(Rewritten(h, sources, matched, mode, src, credential, host),
                    Rewritten(map[], sources, matched, mode, src, credential, host), n)
  {
    var names := CredentialNames(sources, matched);
    var a, b := (h - names) - {"host"}, (map[] - names) - {"host"};
    assert n !in a && n !in b;
    assert AgreeAt(WithInjected(a, src, credential), WithInjected(b, src, credential), n);
    ExtrasLocal(WithInjected(a, src, credential), WithInjected(b, src, credential), src.extraHeaders, n);
  }

  /** The first placeholder is replaced, and then those of what follows it. */
  lemma FillStep(before: string, after: string, credential: string)
    requires Lacks(before, "{}")
    ensures Fill(before + "{}" + after, credential) == before + credential + Fill(after, credential)
  {
    var s, i := before + "{}" + after, |before|;
    forall j: nat | j < i
      ensures !At(s, "{}", j)
    {
      assert !At(before, "{}", j);
      if j + 2 <= i {
        assert s[j..j + 2] == before[j..j + 2];
      } else {
        assert s[j..j + 2][1] == '{';
      }
    }
    assert s[i..i + 2] == "{}";
    FindFirst(s, "{}", i);
    assert s[..i] == before && s[i + 2..] == after;
  }

  lemma FillNone(format: string, credential: string)
    requires Lacks(format, "{}")
    ensures Fill(format, credential) == format
  {
    FindSound(format, "{}");
  }

  /** A format with one placeholder puts the credential there, whatever the credential contains. */
  lemma FillOnce(before: string, after: string, credential: string)
    requires Lacks(before, "{}") && Lacks(after, "{}")
    ensures Fill(before + "{}" + after, credential) == before + credential + after
  {
    FillStep(before, after, credential);
    FillNone(after, credential);
  }

  /**
   * With such a format, the upstream is given the credential in it, or an empty value if that has a
   * control character; and the host it is for.
   */
  lemma InjectedAsFormatted(h: Fields, sources: seq<CredentialSource>, matched: string, i: nat, credential: string,
                            host: string, before: string, after: string)
    requires i < |sources| && sources[i].basicUser == None && sources[i].format == before + "{}" + after
    requires Lacks(before, "{}") && Lacks(after, "{}")
    requires NormName(sources[i].injectHeader).Some?
    ensures var out := Rewritten(h, sources, matched, Header, sources[i], credential, host);
            var n := NormName(sources[i].injectHeader).value;
            var text := before + credential + after;
            && "host" in out && out["host"] == [if Uncontrolled(host) then Encode(host) else []]
            && (n != "host" && n !in ExtraNames(sources[i].extraHeaders) ==>
                  n in out && out[n] == [if Uncontrolled(text) then Encode(text) else []])
  {
    var n := NormName(sources[i].injectHeader).value;
    FillOnce(before, after, credential);
    FromStrIs(before + credential + after);
    FromStrIs(host);
    if n != "host" && n !in ExtraNames(sources[i].extraHeaders) {
      CredentialHeadersAreOurs(h, sources, matched, Header, i, credential, host, n);
    }
  }
}
