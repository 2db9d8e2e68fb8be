/** The parts of Rust's `str` API that the gateway leans on, over `seq<char>`. */
module Text {

  datatype Option<+T> = None | Some(value: T)

  /** The Unicode `White_Space` property, which `str::trim` strips. */
  predicate IsSpace(c: char) {
    || '\t' <= c <= '\r'
    || c == ' '
    || c == '\U{0085}'
    || c == '\U{00A0}'
    || c == '\U{1680}'
    || '\U{2000}' <= c <= '\U{200A}'
    || c == '\U{2028}'
    || c == '\U{2029}'
    || c == '\U{202F}'
    || c == '\U{205F}'
    || c == '\U{3000}'
  }

  predicate AllSpace(s: string) {
    forall i :: 0 <= i < |s| ==> IsSpace(s[i])
  }

  /** No white space at either end. */
  predicate Trimmed(s: string) {
    s == "" || (!IsSpace(s[0]) && !IsSpace(s[|s| - 1]))
  }

  function TrimStart(s: string): string {
    if s != "" && IsSpace(s[0]) then TrimStart(s[1..]) else s
  }

  function TrimEnd(s: string): string {
    if s != "" && IsSpace(s[|s| - 1]) then TrimEnd(s[..|s| - 1]) else s
  }

  function Trim(s: string): string {
    TrimEnd(TrimStart(s))
  }

  lemma {:induction false} TrimStartSplits(s: string) returns (left: string)
    ensures AllSpace(left) && s == left + TrimStart(s)
    ensures TrimStart(s) == "" || !IsSpace(TrimStart(s)[0])
  {
    if s != "" && IsSpace(s[0]) {
      var rest := TrimStartSplits(s[1..]);
      left := [s[0]] + rest;
    } else {
      left := "";
    }
  }

  lemma {:induction false} TrimEndSplits(s: string) returns (right: string)
    ensures AllSpace(right) && s == TrimEnd(s) + right
    ensures TrimEnd(s) == "" || !IsSpace(TrimEnd(s)[|TrimEnd(s)| - 1])
  {
    if s != "" && IsSpace(s[|s| - 1]) {
      var rest := TrimEndSplits(s[..|s| - 1]);
      right := rest + [s[|s| - 1]];
      assert s == s[..|s| - 1] + [s[|s| - 1]];
    } else {
      right := "";
    }
  }

  /** `Trim` removes exactly the white space at both ends. */
  lemma TrimSplits(s: string) returns (left: string, right: string)
    ensures AllSpace(left) && AllSpace(right)
    ensures s == left + Trim(s) + right
    ensures Trimmed(Trim(s))
  {
    left := TrimStartSplits(s);
    right := TrimEndSplits(TrimStart(s));
    if Trim(s) != "" {
      assert Trim(s)[0] == TrimStart(s)[0];
    }
  }

  lemma {:induction false} TrimStartSkips(left: string, rest: string)
    requires AllSpace(left)
    ensures TrimStart(left + rest) == TrimStart(rest)
  {
    if left == "" {
      assert left + rest == rest;
    } else {
      assert (left + rest)[1..] == left[1..] + rest;
      TrimStartSkips(left[1..], rest);
    }
  }

  lemma {:induction false} TrimEndSkips(rest: string, right: string)
    requires AllSpace(right)
    ensures TrimEnd(rest + right) == TrimEnd(rest)
  {
    if right == "" {
      assert rest + right == rest;
    } else {
      var last := |right| - 1;
      assert (rest + right)[..|rest + right| - 1] == rest + right[..last];
      TrimEndSkips(rest, right[..last]);
    }
  }

  /** Padding a trimmed text with white space does not change what `Trim` returns. */
  lemma TrimOfPadded(left: string, core: string, right: string)
    requires AllSpace(left) && AllSpace(right) && Trimmed(core)
    ensures Trim(left + core + right) == core
  {
    assert left + core + right == left + (core + right);
    TrimStartSkips(left, core + right);
    if core == "" {
      assert core + right == right + "";
      TrimStartSkips(right, "");
    } else {
      TrimEndSkips(core, right);
    }
  }

  lemma TrimOfTrimmed(core: string)
    requires Trimmed(core)
    ensures Trim(core) == core
  {
    TrimOfPadded("", core, "");
    assert "" + core + "" == core;
  }

  // ---------------------------------------------------------------- searching

  predicate At(s: string, pattern: string, i: nat) {
    i + |pattern| <= |s| && s[i..i + |pattern|] == pattern
  }

  /** No occurrence of the pattern anywhere. */
  ghost predicate Lacks(s: string, pattern: string) {
    forall i: nat :: !At(s, pattern, i)
  }

  function FindFrom(s: string, pattern: string, from: nat): (r: Option<nat>)
    requires from <= |s|
    ensures r.Some? ==> r.value + |pattern| <= |s|
    decreases |s| - from
  {
    if At(s, pattern, from) then Some(from)
    else if from == |s| then None
    else FindFrom(s, pattern, from + 1)
  }

  /** `str::find`: the first occurrence. */
  function Find(s: string, pattern: string): (r: Option<nat>)
    ensures r.Some? ==> r.value + |pattern| <= |s|
  {
    FindFrom(s, pattern, 0)
  }

  lemma {:induction false} FindFromFirst(s: string, pattern: string, from: nat, i: nat)
    requires from <= i && At(s, pattern, i)
    requires forall j: nat :: from <= j < i ==> !At(s, pattern, j)
    ensures FindFrom(s, pattern, from) == Some(i)
    decreases i - from
  {
    if from < i {
      FindFromFirst(s, pattern, from + 1, i);
    }
  }

  /** An occurrence with none before it is what `Find` returns. */
  lemma FindFirst(s: string, pattern: string, i: nat)
    requires At(s, pattern, i)
    requires forall j: nat :: j < i ==> !At(s, pattern, j)
    ensures Find(s, pattern) == Some(i)
  {
    FindFromFirst(s, pattern, 0, i);
  }

  lemma {:induction false} FindFromSound(s: string, pattern: string, from: nat)
    requires from <= |s|
    ensures var r := FindFrom(s, pattern, from);
            match r
            case Some(i) => from <= i && At(s, pattern, i) && forall j: nat :: from <= j < i ==> !At(s, pattern, j)
            case None => forall j: nat :: from <= j ==> !At(s, pattern, j)
    decreases |s| - from
  {
    if !At(s, pattern, from) && from < |s| {
      FindFromSound(s, pattern, from + 1);
    }
  }

  /** What `Find` returns is an occurrence with none before it, and `None` means there is none. */
  lemma FindSound(s: string, pattern: string)
    ensures match Find(s, pattern)
            case Some(i) => At(s, pattern, i) && forall j: nat :: j < i ==> !At(s, pattern, j)
            case None => forall j: nat :: !At(s, pattern, j)
  {
    FindFromSound(s, pattern, 0);
  }

  predicate StartsWith(s: string, prefix: string) {
    |prefix| <= |s| && s[..|prefix|] == prefix
  }

  lemma StartsWithIff(s: string, prefix: string)
    ensures StartsWith(s, prefix) <==> exists rest :: s == prefix + rest
    ensures StartsWith(s, prefix) ==> s == prefix + s[|prefix|..]
  {
    if StartsWith(s, prefix) {
      assert s == prefix + s[|prefix|..];
    }
  }

  /** `str::strip_prefix`. */
  function StripPrefix(s: string, prefix: string): Option<string> {
    if StartsWith(s, prefix) then Some(s[|prefix|..]) else None
  }

  // ---------------------------------------------------------------- splitting

  predicate Free(s: string, c: char) {
    forall i :: 0 <= i < |s| ==> s[i] != c
  }

  /** Puts one character in front of the first part. */
  function Widen(c: char, parts: seq<string>): (wide: seq<string>)
    requires parts != []
    ensures |wide| == |parts|
  {
    [[c] + parts[0]] + parts[1..]
  }

  /** `str::split(c)`: never empty; the empty text has one empty part. */
  function Split(s: string, c: char): (parts: seq<string>)
    ensures parts != []
  {
    if s == "" then [""]
    else if s[0] == c then [""] + Split(s[1..], c)
    else Widen(s[0], Split(s[1..], c))
  }

  lemma {:induction false} SplitFree(s: string, c: char)
    requires Free(s, c)
    ensures Split(s, c) == [s]
  {
    if s != "" {
      SplitFree(s[1..], c);
      assert s == [s[0]] + s[1..];
    }
  }

  lemma WidenConcat(c: char, left: seq<string>, right: seq<string>)
    requires left != []
    ensures Widen(c, left + right) == Widen(c, left) + right
  {
    assert (left + right)[1..] == left[1..] + right;
  }

  /** Splitting distributes over a separator. */
  lemma {:induction false} SplitJoin(a: string, c: char, b: string)
    ensures Split(a + [c] + b, c) == Split(a, c) + Split(b, c)
  {
    var whole := a + [c] + b;
    if a == "" {
      assert whole[1..] == b;
    } else {
      SplitJoin(a[1..], c, b);
      assert whole[0] == a[0] && whole[1..] == a[1..] + [c] + b;
      if a[0] == c {
        assert [""] + (Split(a[1..], c) + Split(b, c)) == [""] + Split(a[1..], c) + Split(b, c);
      } else {
        WidenConcat(a[0], Split(a[1..], c), Split(b, c));
      }
    }
  }

  lemma {:induction false} SplitPartsFree(s: string, c: char)
    ensures forall i :: 0 <= i < |Split(s, c)| ==> Free(Split(s, c)[i], c)
  {
    if s != "" {
      SplitPartsFree(s[1..], c);
    }
  }

  lemma {:induction false} SplitSingle(s: string, c: char)
    requires |Split(s, c)| == 1
    ensures s == Split(s, c)[0]
  {
    if s != "" {
      SplitSingle(s[1..], c);
      assert s == [s[0]] + s[1..];
    }
  }

  /** Two parts are the text around the one separator. */
  lemma {:induction false} SplitPair(s: string, c: char)
    requires |Split(s, c)| == 2
    ensures s == Split(s, c)[0] + [c] + Split(s, c)[1]
    ensures Free(Split(s, c)[0], c) && Free(Split(s, c)[1], c)
  {
    SplitPartsFree(s, c);
    assert s == [s[0]] + s[1..];
    if s[0] == c {
      SplitSingle(s[1..], c);
    } else {
      SplitPair(s[1..], c);
    }
  }

  /** The text before the first `c`, or the whole text. */
  function UpTo(s: string, c: char): string {
    if s == "" || s[0] == c then "" else [s[0]] + UpTo(s[1..], c)
  }

  lemma {:induction false} UpToSplits(s: string, c: char)
    ensures |UpTo(s, c)| <= |s| && s[..|UpTo(s, c)|] == UpTo(s, c) && Free(UpTo(s, c), c)
    ensures |UpTo(s, c)| < |s| ==> s[|UpTo(s, c)|] == c
  {
    if s != "" && s[0] != c {
      UpToSplits(s[1..], c);
    }
  }

  lemma {:induction false} UpToOf(a: string, c: char, b: string)
    requires Free(a, c)
    requires b == "" || b[0] == c
    ensures UpTo(a + b, c) == a
  {
    if a == "" {
      assert a + b == b;
    } else {
      assert (a + b)[1..] == a[1..] + b;
      UpToOf(a[1..], c, b);
    }
  }

  /** `trim_start_matches(c)` and `trim_matches(c)`. */
  function DropStart(s: string, c: char): string {
    if s != "" && s[0] == c then DropStart(s[1..], c) else s
  }

  function DropEnd(s: string, c: char): string {
    if s != "" && s[|s| - 1] == c then DropEnd(s[..|s| - 1], c) else s
  }

  predicate Only(s: string, c: char) {
    forall i :: 0 <= i < |s| ==> s[i] == c
  }

  /** `DropStart` removes exactly the leading `c`s. */
  lemma {:induction false} DropStartSplits(s: string, c: char) returns (left: string)
    ensures Only(left, c) && s == left + DropStart(s, c)
    ensures DropStart(s, c) == "" || DropStart(s, c)[0] != c
  {
    if s != "" && s[0] == c {
      var rest := DropStartSplits(s[1..], c);
      left := [c] + rest;
    } else {
      left := "";
    }
  }

  lemma {:induction false} DropStartOf(left: string, c: char, rest: string)
    requires Only(left, c) && (rest == "" || rest[0] != c)
    ensures DropStart(left + rest, c) == rest
  {
    if left == "" {
      assert left + rest == rest;
    } else {
      assert (left + rest)[1..] == left[1..] + rest;
      DropStartOf(left[1..], c, rest);
    }
  }

  lemma {:induction false} DropEndSplits(s: string, c: char) returns (right: string)
    ensures Only(right, c) && s == DropEnd(s, c) + right
    ensures DropEnd(s, c) == "" || DropEnd(s, c)[|DropEnd(s, c)| - 1] != c
  {
    if s != "" && s[|s| - 1] == c {
      var rest := DropEndSplits(s[..|s| - 1], c);
      right := rest + [c];
      assert s == s[..|s| - 1] + [c];
    } else {
      right := "";
    }
  }

  // ---------------------------------------------------------------- ASCII case

  function LowerChar(c: char): char {
    if 'A' <= c <= 'Z' then c - 'A' + 'a' else c
  }

  function Lower(s: string): (r: string)
    ensures |r| == |s|
    ensures forall i :: 0 <= i < |s| ==> r[i] == LowerChar(s[i])
  {
    seq(|s|, i requires 0 <= i < |s| => LowerChar(s[i]))
  }

  /** `eq_ignore_ascii_case`. */
  predicate EqIgnoreCase(a: string, b: string) {
    Lower(a) == Lower(b)
  }

  const UPPER := "ABCDEFGHIJKLMNOPQRSTUVWXYZ"
  const LOWER := "abcdefghijklmnopqrstuvwxyz"

  lemma LettersRun(v: nat)
    requires v < 26
    ensures |UPPER| == |LOWER| == 26
    ensures UPPER[v] == ('A' as int + v) as char && LOWER[v] == ('a' as int + v) as char
  {
    assert v < 5 || v < 10 || v < 15 || v < 20 || v < 26;
  }

  /** The twenty-six capitals become the small letters in their order, and nothing else changes. */
  lemma LowerCharIs(c: char)
    ensures forall k: nat :: k < 26 ==> LowerChar(UPPER[k]) == LOWER[k]
    ensures (forall k: nat :: k < 26 ==> c != UPPER[k]) ==> LowerChar(c) == c
  {
    forall k: nat | k < 26
      ensures LowerChar(UPPER[k]) == LOWER[k]
    {
      LettersRun(k);
    }
    if 'A' <= c <= 'Z' {
      LettersRun((c as int) - ('A' as int));
    }
  }

  // ---------------------------------------------------------------- ordering

  /** `str`'s order: lexicographic by code point, which is the order of the UTF-8 bytes. */
  predicate Less(a: string, b: string) {
    if b == "" then false
    else if a == "" then true
    else if a[0] != b[0] then a[0] < b[0]
    else Less(a[1..], b[1..])
  }

  /** One text comes before another if it is shorter and agrees, or is smaller where they first differ. */
  lemma {:induction false} LessIff(a: string, b: string)
    ensures Less(a, b) <==>
            exists k: nat :: k <= |a| && k < |b| && a[..k] == b[..k] && (k == |a| || a[k] < b[k])
  {
    if b == "" {
    } else if a == "" {
      assert a[..0] == b[..0];
    } else if a[0] != b[0] {
      if a[0] < b[0] {
        assert a[..0] == b[..0];
      }
      forall k: nat | 0 < k <= |a| && k < |b|
        ensures a[..k] != b[..k]
      {
        assert a[..k][0] == a[0] != b[0] == b[..k][0];
      }
    } else {
      LessIff(a[1..], b[1..]);
      LessTails(a, b);
    }
  }

  lemma LessTails(a: string, b: string)
    requires a != "" && b != "" && a[0] == b[0]
    ensures (exists k: nat :: k <= |a| && k < |b| && a[..k] == b[..k] && (k == |a| || a[k] < b[k])) <==>
            exists k: nat :: k <= |a[1..]| && k < |b[1..]| && a[1..][..k] == b[1..][..k]
                             && (k == |a[1..]| || a[1..][k] < b[1..][k])
  {
    if k: nat :| k <= |a| && k < |b| && a[..k] == b[..k] && (k == |a| || a[k] < b[k]) {
      assert a[1..][..k - 1] == a[..k][1..] == b[..k][1..] == b[1..][..k - 1];
    }
    if k: nat :| k <= |a[1..]| && k < |b[1..]| && a[1..][..k] == b[1..][..k]
                 && (k == |a[1..]| || a[1..][k] < b[1..][k]) {
      assert a[..k + 1] == [a[0]] + a[1..][..k] == [b[0]] + b[1..][..k] == b[..k + 1];
    }
  }

  lemma {:induction false} LessTotal(a: string, b: string)
    ensures Less(a, b) || Less(b, a) || a == b
    ensures !(Less(a, b) && Less(b, a))
    ensures !Less(a, a)
  {
    if a != "" && b != "" && a[0] == b[0] {
      LessTotal(a[1..], b[1..]);
      assert a == [a[0]] + a[1..] && b == [b[0]] + b[1..];
    }
    if a != "" {
      LessTotal(a[1..], a[1..]);
    }
  }

  lemma {:induction false} LessTransitive(a: string, b: string, c: string)
    requires Less(a, b) && Less(b, c)
    ensures Less(a, c)
  {
    if a != "" && a[0] == b[0] == c[0] {
      LessTransitive(a[1..], b[1..], c[1..]);
    }
  }
}
