/** What adding a source's extra headers to comma-separated lists guarantees (`insert_extra_headers`). */
module ExtraHeaders {
  import opened Text
  import opened Utf8
  import opened Profiles
  import opened Headers

  /** A value that can be one member of a list: visible, trimmed, without a comma. */
  predicate Listable(value: string) {
    Visible(value) && Trimmed(value) && Free(value, ',')
  }

  lemma MembersOfOne(value: string)
    requires Trimmed(value) && Free(value, ',')
    ensures Members(value) == [value]
  {
    SplitFree(value, ',');
    TrimOfTrimmed(value);
    assert Members(value) == [Trim(value)];
  }

  /** Adding `, value` to a list adds one member at its end. */
  lemma MembersOfCombined(existing: string, value: string)
    requires Trimmed(value) && Free(value, ',')
    ensures Members(existing + ", " + value) == Members(existing) + [value]
  {
    assert existing + ", " + value == existing + [','] + (" " + value);
    SplitJoin(existing, ',', " " + value);
    SplitFree(" " + value, ',');
    TrimOfPadded(" ", value, "");
    assert " " + value + "" == " " + value;
  }

  /** A member of a list is trimmed and has no comma, and so is what equals it but for case. */
  lemma {:induction false} LowerKeeps(a: string, b: string)
    requires EqIgnoreCase(a, b) && Trimmed(a) && Free(a, ',')
    ensures Trimmed(b) && Free(b, ',')
  {
    assert |Lower(a)| == |a| == |b|;
    forall i | 0 <= i < |b|
      ensures IsSpace(b[i]) == IsSpace(a[i]) && b[i] != ','
    {
      assert Lower(a)[i] == Lower(b)[i];
    }
  }

  lemma HasMemberListable(existing: string, value: string)
    requires HasMember(existing, value)
    ensures Trimmed(value) && Free(value, ',')
  {
    var i :| 0 <= i < |Members(existing)| && EqIgnoreCase(Members(existing)[i], value);
    var part := Split(existing, ',')[i];
    SplitPartsFree(existing, ',');
    var left, right := TrimSplits(part);
    assert Free(Trim(part), ',') by {
      assert forall k :: 0 <= k < |Trim(part)| ==> Trim(part)[k] == part[|left| + k];
    }
    LowerKeeps(Members(existing)[i], value);
  }

  lemma VisibleConcat(existing: string, value: string)
    requires Visible(existing)
    ensures Visible(existing + ", " + value) <==> Visible(value)
  {
    var all := existing + ", " + value;
    assert forall i :: 0 <= i < |value| ==> all[|existing| + 2 + i] == value[i];
  }

  lemma {:induction false} EncodeConcat(a: string, b: string)
    ensures Encode(a + b) == Encode(a) + Encode(b)
  {
    if a == "" {
      assert a + b == b;
    } else {
      assert (a + b)[1..] == a[1..] + b;
      EncodeConcat(a[1..], b);
    }
  }

  lemma CombinedIsValid(existing: string, value: string)
    requires Visible(existing) && FromStr(value).Some?
    ensures FromStr(existing + ", " + value) == Some(Encode(existing + ", " + value))
  {
    EncodeConcat(existing + ", ", value);
    EncodeAscii(existing + ", ");
  }

  /** What the header holds when it has a text form: the text of its first value. */
  function FirstText(h: Fields, n: string): Option<string> {
    if n in h && h[n] != [] then ToStr(h[n][0]) else None
  }

  predicate Absent(h: Fields, n: string) {
    n !in h || h[n] == []
  }

  /** The value is a member of the header's list already. */
  predicate Listed(h: Fields, n: string, value: string) {
    FirstText(h, n).Some? && HasMember(FirstText(h, n).value, value)
  }

  lemma ListedUnchanged(h: Fields, name: string, value: string)
    requires NormName(name).Some? ==> Listed(h, NormName(name).value, value)
    ensures WithExtra(h, name, value) == h
  {
  }

  lemma ToStrEncode(s: string)
    ensures ToStr(Encode(s)) == if Visible(s) then Some(s) else None
  {
    if Visible(s) {
      VisibleRoundTrip(s);
    } else {
      EncodeVisibleOnly(s);
    }
  }

  /** What one extra header does to the list under its name. */
  lemma ExtraText(h: Fields, name: string, value: string)
    requires NormName(name).Some? && FromStr(value).Some?
    requires var n := NormName(name).value; Absent(h, n) || FirstText(h, n).Some?
    ensures var n, out := NormName(name).value, WithExtra(h, name, value);
            if Listed(h, n, value) then out == h
            else
              var text := if Absent(h, n) then value else FirstText(h, n).value + ", " + value;
              out == h[n := [Encode(text)]] && FirstText(out, n) == (if Visible(value) then Some(text) else None)
  {
    var n := NormName(name).value;
    if Absent(h, n) {
      ToStrEncode(value);
    } else {
      var existing := FirstText(h, n).value;
      ToStrVisible(h[n][0]);
      CombinedIsValid(existing, value);
      ToStrEncode(existing + ", " + value);
      VisibleConcat(existing, value);
    }
  }

  /** The members of a header's list, none if it is absent. */
  function MembersOf(h: Fields, n: string): seq<string> {
    if FirstText(h, n).Some? then Members(FirstText(h, n).value) else []
  }

  /**
   * What a header may become when a value is added to it. If its first value is a list, or there is
   * none, the list is what it was and then the value, and the only value of the header, unless the
   * value was among it, and in that case nothing changes. If its first value has no text form, the
   * value comes after all that was there.
   */
  predicate Extended(h: Fields, out: Fields, n: string, value: string) {
    && !Absent(out, n)
    && if Absent(h, n) || FirstText(h, n).Some? then
         && FirstText(out, n).Some?
         && MembersOf(out, n) == MembersOf(h, n) + (if Listed(h, n, value) then [] else [value])
         && (if Listed(h, n, value) then out[n] == h[n] else |out[n]| == 1)
       else
         out[n] == h[n] + [Encode(value)]
  }

  /** One extra header loses and reorders no member of the list that was there. */
  lemma ExtraAppendsMember(h: Fields, name: string, value: string)
    requires NormName(name).Some? && Listable(value)
    ensures Extended(h, WithExtra(h, name, value), NormName(name).value, value)
  {
    var n := NormName(name).value;
    VisibleRoundTrip(value);
    if Absent(h, n) {
      ExtraText(h, name, value);
      MembersOfOne(value);
    } else if FirstText(h, n).Some? {
      ExtraText(h, name, value);
      MembersOfCombined(FirstText(h, n).value, value);
    }
  }

  /** Values after the first are lost exactly when the value is joined to the first one. */
  lemma ExtraKeepsRepeatedIff(h: Fields, name: string, value: string)
    requires NormName(name).Some? && FromStr(value).Some?
    requires var n := NormName(name).value; n in h && |h[n]| > 1
    ensures var n, out := NormName(name).value, WithExtra(h, name, value);
            (n in out && h[n][1..] <= out[n][1..]) <==> FirstText(h, n).None? || Listed(h, n, value)
  {
    var n := NormName(name).value;
    if FirstText(h, n).Some? {
      ExtraText(h, name, value);
    } else {
      assert (h[n] + [FromStr(value).value])[1..] == h[n][1..] + [FromStr(value).value];
    }
  }

  // ---------------------------------------------------------------- idempotence

  /** After the first time the value is listed, so the second time changes nothing. */
  lemma ExtraListsIt(h: Fields, name: string, value: string)
    requires NormName(name).Some? && Listable(value)
    requires var n := NormName(name).value; Absent(h, n) || FirstText(h, n).Some?
    ensures Listed(WithExtra(h, name, value), NormName(name).value, value)
  {
    var n, out := NormName(name).value, WithExtra(h, name, value);
    VisibleRoundTrip(value);
    ExtraText(h, name, value);
    if Absent(h, n) {
      MembersOfOne(value);
      assert EqIgnoreCase(Members(value)[0], value);
    } else if !Listed(h, n, value) {
      var existing := FirstText(h, n).value;
      MembersOfCombined(existing, value);
      assert EqIgnoreCase(Members(existing + ", " + value)[|Members(existing)|], value);
    }
  }

  /**
   * Adding one extra header twice is adding it once exactly when the name or the value is refused,
   * or it is listed already, or it can be listed.
   */
  lemma ExtraIdempotentIff(h: Fields, name: string, value: string)
    ensures WithExtra(WithExtra(h, name, value), name, value) == WithExtra(h, name, value) <==>
            NormName(name).None? || FromStr(value).None? ||
            (var n := NormName(name).value;
             Listed(h, n, value) || ((Absent(h, n) || FirstText(h, n).Some?) && Listable(value)))
  {
    if NormName(name).Some? && FromStr(value).Some? {
      var n, out := NormName(name).value, WithExtra(h, name, value);
      if !Absent(h, n) && FirstText(h, n).None? {
        assert out[n] == h[n] + [FromStr(value).value] && out[n][0] == h[n][0];
        assert |WithExtra(out, name, value)[n]| == |out[n]| + 1;
      } else if Listed(h, n, value) {
        ListedUnchanged(h, name, value);
      } else if Listable(value) {
        ExtraListsIt(h, name, value);
        ListedUnchanged(out, name, value);
      } else {
        ExtraText(h, name, value);
        GrowsAgain(out, name, value);
      }
    }
  }

  /** A value that cannot be listed is added again every time. */
  lemma GrowsAgain(h: Fields, name: string, value: string)
    requires NormName(name).Some? && FromStr(value).Some? && !Listable(value)
    requires var n := NormName(name).value;
             n in h && |h[n]| == 1 && (Visible(value) ==> FirstText(h, n).Some?)
    requires !Visible(value) ==> FirstText(h, NormName(name).value).None?
    ensures WithExtra(h, name, value) != h
  {
    var n := NormName(name).value;
    if Visible(value) {
      var existing := FirstText(h, n).value;
      if HasMember(existing, value) {
        HasMemberListable(existing, value);
      }
      ExtraText(h, name, value);
      ToStrVisible(h[n][0]);
      EncodeAscii(existing);
      VisibleConcat(existing, value);
      EncodeAscii(existing + ", " + value);
    } else {
      assert |Appended(h, n, FromStr(value).value)[n]| == 2;
    }
  }

  /** Extra headers with different names whose values can be listed. */
  ghost predicate Orderly(extras: seq<(string, string)>) {
    && (forall i :: 0 <= i < |extras| ==> NormName(extras[i].0).Some? && Listable(extras[i].1))
    && (forall i, j :: 0 <= i < j < |extras| ==> NormName(extras[i].0) != NormName(extras[j].0))
  }

  ghost predicate Readable(h: Fields, extras: seq<(string, string)>) {
    forall i :: 0 <= i < |extras| && NormName(extras[i].0).Some? ==>
      var n := NormName(extras[i].0).value; Absent(h, n) || FirstText(h, n).Some?
  }

  ghost predicate AllListed(h: Fields, extras: seq<(string, string)>) {
    forall i :: 0 <= i < |extras| && NormName(extras[i].0).Some? ==> Listed(h, NormName(extras[i].0).value, extras[i].1)
  }

  lemma {:induction false} ExtrasListThem(h: Fields, extras: seq<(string, string)>)
    requires Orderly(extras) && Readable(h, extras)
    ensures AllListed(WithExtras(h, extras), extras)
    decreases |extras|
  {
    if extras != [] {
      var last := |extras| - 1;
      var shorter, n := extras[..last], NormName(extras[last].0).value;
      ExtrasListThem(h, shorter);
      var mid := WithExtras(h, shorter);
      ExtrasTouchOnlyTheirNames(h, shorter, n);
      ExtraListsIt(mid, extras[last].0, extras[last].1);
      OneMoreKeepsListed(mid, shorter, extras[last]);
      var out := WithExtra(mid, extras[last].0, extras[last].1);
      forall i | 0 <= i < |extras|
        ensures Listed(out, NormName(extras[i].0).value, extras[i].1)
      {
        assert i < last ==> shorter[i] == extras[i];
      }
    }
  }

  lemma OneMoreKeepsListed(h: Fields, extras: seq<(string, string)>, extra: (string, string))
    requires AllListed(h, extras) && NormName(extra.0).Some?
    requires forall i :: 0 <= i < |extras| ==> NormName(extras[i].0) != NormName(extra.0)
    ensures AllListed(WithExtra(h, extra.0, extra.1), extras)
  {
    forall i | 0 <= i < |extras| && NormName(extras[i].0).Some?
      ensures Listed(WithExtra(h, extra.0, extra.1), NormName(extras[i].0).value, extras[i].1)
    {
      OneExtraKeepsOthers(h, extra, NormName(extras[i].0).value);
    }
  }

  lemma OneExtraKeepsOthers(h: Fields, extra: (string, string), n: string)
    requires NormName(extra.0).Some? && NormName(extra.0).value != n
    ensures FirstText(WithExtra(h, extra.0, extra.1), n) == FirstText(h, n)
  {
  }

  lemma {:induction false} AllListedUnchanged(h: Fields, extras: seq<(string, string)>)
    requires AllListed(h, extras)
    ensures WithExtras(h, extras) == h
    decreases |extras|
  {
    if extras != [] {
      var last := |extras| - 1;
      assert forall i :: 0 <= i < last ==> extras[..last][i] == extras[i];
      AllListedUnchanged(h, extras[..last]);
      ListedUnchanged(h, extras[last].0, extras[last].1);
    }
  }

  /** `insert_extra_headers` a second time changes nothing. */
  lemma ExtrasIdempotent(h: Fields, extras: seq<(string, string)>)
    requires Orderly(extras) && Readable(h, extras)
    ensures WithExtras(WithExtras(h, extras), extras) == WithExtras(h, extras)
  {
    ExtrasListThem(h, extras);
    AllListedUnchanged(WithExtras(h, extras), extras);
  }

  // ---------------------------------------------------------------- the whole list

  /** No two of the valid names are the same. */
  ghost predicate Distinct(extras: seq<(string, string)>) {
    forall i, j :: 0 <= i < j < |extras| && NormName(extras[i].0).Some? ==>
      NormName(extras[i].0) != NormName(extras[j].0)
  }

  lemma OtherExtraKeeps(h: Fields, extra: (string, string), n: string)
    requires NormName(extra.0) != Some(n)
    ensures AgreeAt(WithExtra(h, extra.0, extra.1), h, n)
  {
  }

  lemma AgreeThrough(a: Fields, b: Fields, c: Fields, n: string)
    requires AgreeAt(a, b, n) && AgreeAt(b, c, n)
    ensures AgreeAt(a, c, n)
  {
  }

  lemma LastExtraAt(h: Fields, extras: seq<(string, string)>)
    requires Distinct(extras) && extras != [] && NormName(extras[|extras| - 1].0).Some?
    ensures var (name, value) := extras[|extras| - 1];
            AgreeAt(WithExtras(h, extras), WithExtra(h, name, value), NormName(name).value)
  {
    var last := |extras| - 1;
    var shorter, n := extras[..last], NormName(extras[last].0).value;
    assert n !in ExtraNames(shorter);
    ExtrasTouchOnlyTheirNames(h, shorter, n);
    ExtraLocal(WithExtras(h, shorter), h, extras[last].0, extras[last].1, n);
  }

  /** Under the name of one extra header, the whole list does what that one alone does. */
  lemma {:induction false} ExtrasAt(h: Fields, extras: seq<(string, string)>, i: nat)
    requires Distinct(extras) && i < |extras| && NormName(extras[i].0).Some?
    ensures AgreeAt(WithExtras(h, extras), WithExtra(h, extras[i].0, extras[i].1), NormName(extras[i].0).value)
    decreases |extras|
  {
    var last := |extras| - 1;
    if i < last {
      var shorter := extras[..last];
      var (name, value) := extras[i];
      assert shorter[i] == extras[i];
      ExtrasAt(h, shorter, i);
      var n, mid := NormName(name).value, WithExtras(h, shorter);
      OtherExtraKeeps(mid, extras[last], n);
      AgreeThrough(WithExtras(h, extras), mid, WithExtra(h, name, value), n);
    } else {
      LastExtraAt(h, extras);
    }
  }

  lemma ExtendedAgrees(h: Fields, a: Fields, b: Fields, n: string, value: string)
    requires AgreeAt(a, b, n) && Extended(h, b, n, value)
    ensures Extended(h, a, n, value)
  {
  }

  /**
   * `insert_extra_headers` loses and reorders nothing: under the name of every extra header, the
   * list is the one that was there, and then the extra value unless it was among them.
   */
  lemma ExtrasAppendMembers(h: Fields, extras: seq<(string, string)>, i: nat)
    requires Distinct(extras) && i < |extras| && NormName(extras[i].0).Some? && Listable(extras[i].1)
    ensures Extended(h, WithExtras(h, extras), NormName(extras[i].0).value, extras[i].1)
  {
    var (name, value) := extras[i];
    ExtraAppendsMember(h, name, value);
    ExtrasAt(h, extras, i);
    ExtendedAgrees(h, WithExtras(h, extras), WithExtra(h, name, value), NormName(name).value, value);
  }

  // ---------------------------------------------------------------- in the upstream request

  /** The value is a member of the list of some value of the header. */
  predicate Arrives(h: Fields, n: string, value: string) {
    n in h && exists j :: 0 <= j < |h[n]| && ToStr(h[n][j]).Some? && HasMember(ToStr(h[n][j]).value, value)
  }

  lemma ExtendedArrives(h: Fields, out: Fields, n: string, value: string)
    requires Extended(h, out, n, value) && Listable(value)
    ensures Arrives(out, n, value)
  {
    if Absent(h, n) || FirstText(h, n).Some? {
      var members := MembersOf(out, n);
      if !Listed(h, n, value) {
        assert members[|members| - 1] == value;
        assert EqIgnoreCase(members[|members| - 1], value);
      }
      assert HasMember(FirstText(out, n).value, value);
      assert ToStr(out[n][0]) == FirstText(out, n);
    } else {
      var last := |out[n]| - 1;
      assert out[n][last] == Encode(value);
      VisibleRoundTrip(value);
      MembersOfOne(value);
      assert EqIgnoreCase(Members(value)[0], value);
    }
  }

  /** The headers the extra headers of the selected source are added to. */
  function BeforeExtras(h: Fields, sources: seq<CredentialSource>, matched: string, src: CredentialSource,
                        credential: string)
    : Fields
  {
    WithInjected((h - CredentialNames(sources, matched)) - {"host"}, src, credential)
  }

  lemma RewrittenExtends(h: Fields, sources: seq<CredentialSource>, matched: string, src: CredentialSource,
                         credential: string, host: string, i: nat)
    requires Distinct(src.extraHeaders) && i < |src.extraHeaders|
    requires NormName(src.extraHeaders[i].0).Some? && NormName(src.extraHeaders[i].0) != Some("host")
    requires Listable(src.extraHeaders[i].1)
    ensures Extended(BeforeExtras(h, sources, matched, src, credential),
                     Rewritten(h, sources, matched, Header, src, credential, host),
                     NormName(src.extraHeaders[i].0).value, src.extraHeaders[i].1)
  {
    var start, n := BeforeExtras(h, sources, matched, src, credential), NormName(src.extraHeaders[i].0).value;
    ExtrasAppendMembers(start, src.extraHeaders, i);
    ExtendedAgrees(start, Rewritten(h, sources, matched, Header, src, credential, host),
                   WithExtras(start, src.extraHeaders), n, src.extraHeaders[i].1);
  }

  /**
   * The upstream sees every extra header of the selected source, whatever the client sent under its
   * name, and its own host. Only an extra header named `host` gives way to the host.
   */
  lemma ExtrasArrive(h: Fields, sources: seq<CredentialSource>, matched: string, src: CredentialSource,
                     credential: string, host: string, i: nat)
    requires Distinct(src.extraHeaders) && i < |src.extraHeaders|
    requires NormName(src.extraHeaders[i].0).Some? && Listable(src.extraHeaders[i].1)
    ensures var out := Rewritten(h, sources, matched, Header, src, credential, host);
            var n := NormName(src.extraHeaders[i].0).value;
            && out["host"] == [OrEmpty(FromStr(host))]
            && (n != "host" ==> Arrives(out, n, src.extraHeaders[i].1))
  {
    var n := NormName(src.extraHeaders[i].0).value;
    if n != "host" {
      RewrittenExtends(h, sources, matched, src, credential, host, i);
      ExtendedArrives(BeforeExtras(h, sources, matched, src, credential),
                      Rewritten(h, sources, matched, Header, src, credential, host), n, src.extraHeaders[i].1);
    }
  }

  /**
   * And beside an extra header whose name is no credential header, everything the client had in its
   * list goes upstream too.
   */
  lemma ClientMembersPass(h: Fields, sources: seq<CredentialSource>, matched: string, k: nat,
                          credential: string, host: string, i: nat)
    requires k < |sources| && Distinct(sources[k].extraHeaders) && i < |sources[k].extraHeaders|
    requires var name := NormName(sources[k].extraHeaders[i].0);
             name.Some? && name != Some("host") && name.value !in CredentialNames(sources, matched)
    requires Listable(sources[k].extraHeaders[i].1)
    ensures var out, n := Rewritten(h, sources, matched, Header, sources[k], credential, host),
                          NormName(sources[k].extraHeaders[i].0).value;
            Extended(h, out, n, sources[k].extraHeaders[i].1) && MembersOf(h, n) <= MembersOf(out, n)
  {
    var src := sources[k];
    var n := NormName(src.extraHeaders[i].0).value;
    RewrittenExtends(h, sources, matched, src, credential, host, i);
    assert AgreeAt(BeforeExtras(h, sources, matched, src, credential), h, n);
  }
}
