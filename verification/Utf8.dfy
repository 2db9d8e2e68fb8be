/** UTF-8 (RFC 3629), which joins Rust's `String` to its bytes. */
module Utf8 {
  import opened Text

  type byte = b: int | 0 <= b < 256

  predicate IsScalar(n: int) {
    0 <= n < 0xD800 || 0xE000 <= n < 0x110000
  }

  function EncodeChar(c: char): seq<byte> {
    var n := c as int;
    if n < 0x80 then [n]
    else if n < 0x800 then [0xC0 + n / 64, 0x80 + n % 64]
    else if n < 0x10000 then [0xE0 + n / 64 / 64, 0x80 + n / 64 % 64, 0x80 + n % 64]
    else [0xF0 + n / 64 / 64 / 64, 0x80 + n / 64 / 64 % 64, 0x80 + n / 64 % 64, 0x80 + n % 64]
  }

  function Encode(s: string): seq<byte> {
    if s == "" then [] else EncodeChar(s[0]) + Encode(s[1..])
  }

  predicate IsTail(b: byte) {
    0x80 <= b < 0xC0
  }

  /** Appends the six bits of a tail byte. */
  function Append(high: int, tail: int): int {
    high * 64 + (tail - 0x80)
  }

  /** The code point at the head of `bs` and its length, if there is a well-formed one. */
  function DecodeHead(bs: seq<byte>): Option<(int, nat)>
    requires bs != []
  {
    var lead: int := bs[0];
    if lead < 0x80 then Some((lead, 1))
    else if 0xC0 <= lead < 0xE0 && |bs| >= 2 && IsTail(bs[1]) then
      Long(Append(lead - 0xC0, bs[1]), 0x80, 2)
    else if 0xE0 <= lead < 0xF0 && |bs| >= 3 && IsTail(bs[1]) && IsTail(bs[2]) then
      Long(Append(Append(lead - 0xE0, bs[1]), bs[2]), 0x800, 3)
    else if 0xF0 <= lead < 0xF8 && |bs| >= 4 && IsTail(bs[1]) && IsTail(bs[2]) && IsTail(bs[3]) then
      Long(Append(Append(Append(lead - 0xF0, bs[1]), bs[2]), bs[3]), 0x10000, 4)
    else None
  }

  /** Refuses overlong forms, surrogates and what lies beyond Unicode. */
  function Long(n: int, least: int, length: nat): Option<(int, nat)> {
    if n >= least && IsScalar(n) then Some((n, length)) else None
  }

  /** `std::str::from_utf8`. */
  function Decode(bs: seq<byte>): Option<string>
    decreases |bs|
  {
    if bs == [] then Some("")
    else
      match DecodeHead(bs)
      case None => None
      case Some((n, length)) =>
        if 0 < length <= |bs| && IsScalar(n) then
          match Decode(bs[length..])
          case None => None
          case Some(rest) => Some([n as char] + rest)
        else None
  }

  lemma AppendSplit(n: int)
    requires n >= 0
    ensures Append(n / 64, 0x80 + n % 64) == n
  {
  }

  lemma SplitAppend(high: int, tail: int)
    requires high >= 0 && 0x80 <= tail < 0xC0
    ensures Append(high, tail) / 64 == high && Append(high, tail) % 64 == tail - 0x80
  {
  }

  lemma DecodeEncodedChar(c: char, rest: seq<byte>)
    ensures EncodeChar(c) != [] && (EncodeChar(c) + rest)[|EncodeChar(c)|..] == rest
    ensures DecodeHead(EncodeChar(c) + rest) == Some((c as int, |EncodeChar(c)|))
  {
    var n := c as int;
    AppendSplit(n);
    AppendSplit(n / 64);
    AppendSplit(n / 64 / 64);
    var bs, out := EncodeChar(c), EncodeChar(c) + rest;
    assert forall i :: 0 <= i < |bs| ==> out[i] == bs[i];
  }

  /** Decoding inverts encoding. */
  lemma {:induction false} DecodeEncode(s: string)
    ensures Decode(Encode(s)) == Some(s)
  {
    if s != "" {
      DecodeEncodedChar(s[0], Encode(s[1..]));
      DecodeEncode(s[1..]);
      assert s == [s[0]] + s[1..];
    }
  }

  lemma EncodeDecodedHead(bs: seq<byte>)
    requires bs != [] && DecodeHead(bs).Some?
    ensures var (n, length) := DecodeHead(bs).value;
            0 < length <= |bs| && IsScalar(n) && EncodeChar(n as char) == bs[..length]
  {
    var (n, length) := DecodeHead(bs).value;
    var lead: int := bs[0];
    if length == 2 {
      SplitAppend(lead - 0xC0, bs[1]);
    } else if length == 3 {
      SplitAppend(lead - 0xE0, bs[1]);
      SplitAppend(Append(lead - 0xE0, bs[1]), bs[2]);
    } else if length == 4 {
      SplitAppend(lead - 0xF0, bs[1]);
      SplitAppend(Append(lead - 0xF0, bs[1]), bs[2]);
      SplitAppend(Append(Append(lead - 0xF0, bs[1]), bs[2]), bs[3]);
    }
  }

  lemma EncodeCons(head: char, rest: string)
    ensures Encode([head] + rest) == EncodeChar(head) + Encode(rest)
  {
    assert ([head] + rest)[1..] == rest;
  }

  lemma DecodeSplits(bs: seq<byte>) returns (head: char, length: nat, rest: seq<byte>)
    requires bs != [] && Decode(bs).Some?
    ensures 0 < length <= |bs| && rest == bs[length..] && EncodeChar(head) + rest == bs
    ensures Decode(rest).Some? && Decode(bs).value == [head] + Decode(rest).value
  {
    EncodeDecodedHead(bs);
    var (n, l) := DecodeHead(bs).value;
    head, length, rest := n as char, l, bs[l..];
    assert bs == bs[..l] + bs[l..];
  }

  /** Only the encoding of a text decodes to it: no overlong or otherwise second form is accepted. */
  lemma {:induction false} EncodeDecoded(bs: seq<byte>)
    requires Decode(bs).Some?
    ensures Encode(Decode(bs).value) == bs
    decreases |bs|
  {
    if bs != [] {
      var head, length, rest := DecodeSplits(bs);
      EncodeDecoded(rest);
      EncodeCons(head, Decode(rest).value);
    }
  }

  predicate Ascii(s: string) {
    forall i :: 0 <= i < |s| ==> s[i] as int < 0x80
  }

  /** ASCII text is its own bytes. */
  lemma {:induction false} EncodeAscii(s: string)
    requires Ascii(s)
    ensures |Encode(s)| == |s| && forall i :: 0 <= i < |s| ==> Encode(s)[i] == s[i] as int
  {
    if s != "" {
      EncodeAscii(s[1..]);
    }
  }
}
