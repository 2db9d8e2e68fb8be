/** Base64 with padding (section 4 of RFC 4648), and the decoder that accepts only canonical text. */
module Base64 {
  import opened Text
  import opened Utf8

  // ---------------------------------------------------------------- bytes and sextets

  predicate IsSextet(v: int) {
    0 <= v < 64
  }

  /** Stands for `=` in a sequence of sextets. */
  const PAD := 64

  // The four sextets of three bytes, and the three bytes of four sextets.

  function First(x: int): int { x / 4 }
  function Second(x: int, y: int): int { x % 4 * 16 + y / 16 }
  function Third(y: int, z: int): int { y % 16 * 4 + z / 64 }
  function Fourth(z: int): int { z % 64 }

  function Byte1(a: int, b: int): int { a * 4 + b / 16 }
  function Byte2(b: int, c: int): int { b % 16 * 16 + c / 4 }
  function Byte3(c: int, d: int): int { c % 4 * 64 + d }

  lemma SextetsOfBytes(x: byte, y: byte, z: byte)
    ensures IsSextet(First(x)) && IsSextet(Second(x, y)) && IsSextet(Third(y, z)) && IsSextet(Fourth(z))
    ensures Byte1(First(x), Second(x, y)) == x
    ensures Byte2(Second(x, y), Third(y, z)) == y
    ensures Byte3(Third(y, z), Fourth(z)) == z
  {
  }

  lemma SextetsOfOne(x: byte)
    ensures IsSextet(First(x)) && IsSextet(Second(x, 0)) && Second(x, 0) % 16 == 0
    ensures Byte1(First(x), Second(x, 0)) == x
  {
  }

  lemma SextetsOfTwo(x: byte, y: byte)
    ensures IsSextet(First(x)) && IsSextet(Second(x, y)) && IsSextet(Third(y, 0)) && Third(y, 0) % 4 == 0
    ensures Byte1(First(x), Second(x, y)) == x && Byte2(Second(x, y), Third(y, 0)) == y
  {
  }

  lemma BytesOfSextets(a: int, b: int, c: int, d: int)
    requires IsSextet(a) && IsSextet(b) && IsSextet(c) && IsSextet(d)
    ensures 0 <= Byte1(a, b) < 256 && 0 <= Byte2(b, c) < 256 && 0 <= Byte3(c, d) < 256
    ensures First(Byte1(a, b)) == a && Second(Byte1(a, b), Byte2(b, c)) == b
    ensures Third(Byte2(b, c), Byte3(c, d)) == c && Fourth(Byte3(c, d)) == d
    ensures b % 16 == 0 ==> Second(Byte1(a, b), 0) == b
    ensures c % 4 == 0 ==> Third(Byte2(b, c), 0) == c
  {
  }

  function ToSextets(bs: seq<byte>): seq<int> {
    if bs == [] then []
    else if |bs| == 1 then [First(bs[0]), Second(bs[0], 0), PAD, PAD]
    else if |bs| == 2 then [First(bs[0]), Second(bs[0], bs[1]), Third(bs[1], 0), PAD]
    else [First(bs[0]), Second(bs[0], bs[1]), Third(bs[1], bs[2]), Fourth(bs[2])] + ToSextets(bs[3..])
  }

  function Bytes(a: int, b: int, c: int, d: int): (bs: seq<byte>)
    requires IsSextet(a) && IsSextet(b) && IsSextet(c) && IsSextet(d)
  {
    BytesOfSextets(a, b, c, d);
    [Byte1(a, b), Byte2(b, c), Byte3(c, d)]
  }

  /** Exact padding, and no stray bits under it. */
  function FromSextets(q: seq<int>): Option<seq<byte>>
    decreases |q|
  {
    if q == [] then Some([])
    else if |q| < 4 || !IsSextet(q[0]) || !IsSextet(q[1]) then None
    else if |q| == 4 && q[2] == PAD && q[3] == PAD then
      if q[1] % 16 == 0 then Some(Bytes(q[0], q[1], 0, 0)[..1]) else None
    else if !IsSextet(q[2]) then None
    else if |q| == 4 && q[3] == PAD then
      if q[2] % 4 == 0 then Some(Bytes(q[0], q[1], q[2], 0)[..2]) else None
    else if !IsSextet(q[3]) then None
    else
      match FromSextets(q[4..])
      case None => None
      case Some(rest) => Some(Bytes(q[0], q[1], q[2], q[3]) + rest)
  }

  lemma FromFour(a: int, b: int, c: int, d: int, q: seq<int>)
    requires IsSextet(a) && IsSextet(b) && IsSextet(c) && IsSextet(d) && FromSextets(q).Some?
    ensures FromSextets([a, b, c, d] + q) == Some(Bytes(a, b, c, d) + FromSextets(q).value)
  {
    assert ([a, b, c, d] + q)[4..] == q;
  }

  lemma BytesOf(x: byte, y: byte, z: byte)
    ensures IsSextet(First(x)) && IsSextet(Second(x, y)) && IsSextet(Third(y, z)) && IsSextet(Fourth(z))
    ensures Bytes(First(x), Second(x, y), Third(y, z), Fourth(z)) == [x, y, z]
  {
    SextetsOfBytes(x, y, z);
  }

  lemma FromThree(a: int, b: int, c: int)
    requires IsSextet(a) && IsSextet(b) && IsSextet(c) && c % 4 == 0
    ensures FromSextets([a, b, c, PAD]) == Some(Bytes(a, b, c, 0)[..2])
  {
  }

  lemma FromTwo(a: int, b: int)
    requires IsSextet(a) && IsSextet(b) && b % 16 == 0
    ensures FromSextets([a, b, PAD, PAD]) == Some(Bytes(a, b, 0, 0)[..1])
  {
  }

  lemma FromToOne(x: byte)
    ensures FromSextets([First(x), Second(x, 0), PAD, PAD]) == Some([x])
  {
    SextetsOfOne(x);
    FromTwo(First(x), Second(x, 0));
    assert Bytes(First(x), Second(x, 0), 0, 0)[..1] == [x];
  }

  lemma FromToTwo(x: byte, y: byte)
    ensures FromSextets([First(x), Second(x, y), Third(y, 0), PAD]) == Some([x, y])
  {
    SextetsOfTwo(x, y);
    FromThree(First(x), Second(x, y), Third(y, 0));
    assert Bytes(First(x), Second(x, y), Third(y, 0), 0)[..2] == [x, y];
  }

  lemma {:induction false} FromToSextets(bs: seq<byte>)
    ensures FromSextets(ToSextets(bs)) == Some(bs)
  {
    if |bs| == 1 {
      FromToOne(bs[0]);
      assert bs == [bs[0]];
    } else if |bs| == 2 {
      FromToTwo(bs[0], bs[1]);
      assert bs == [bs[0], bs[1]];
    } else if |bs| >= 3 {
      var x, y, z := bs[0], bs[1], bs[2];
      BytesOf(x, y, z);
      FromToSextets(bs[3..]);
      FromFour(First(x), Second(x, y), Third(y, z), Fourth(z), ToSextets(bs[3..]));
      assert bs == [x, y, z] + bs[3..];
    }
  }

  lemma {:induction false} ToFromSextets(q: seq<int>)
    requires FromSextets(q).Some?
    ensures ToSextets(FromSextets(q).value) == q
    decreases |q|
  {
    if q != [] {
      if |q| == 4 && q[2] == PAD && q[3] == PAD {
        BytesOfSextets(q[0], q[1], 0, 0);
        assert q == [q[0], q[1], q[2], q[3]];
      } else if |q| == 4 && q[3] == PAD {
        BytesOfSextets(q[0], q[1], q[2], 0);
        assert q == [q[0], q[1], q[2], q[3]];
      } else {
        BytesOfSextets(q[0], q[1], q[2], q[3]);
        ToFromSextets(q[4..]);
        assert FromSextets(q).value[3..] == FromSextets(q[4..]).value;
        assert q == [q[0], q[1], q[2], q[3]] + q[4..];
      }
    }
  }

  predicate InRange(q: seq<int>) {
    forall i :: 0 <= i < |q| ==> 0 <= q[i] <= PAD
  }

  lemma InRangeConcat(a: int, b: int, c: int, d: int, q: seq<int>)
    requires 0 <= a <= PAD && 0 <= b <= PAD && 0 <= c <= PAD && 0 <= d <= PAD && InRange(q)
    ensures InRange([a, b, c, d] + q)
  {
  }

  lemma {:induction false} SextetsInRange(bs: seq<byte>)
    ensures InRange(ToSextets(bs))
  {
    if |bs| == 1 {
      SextetsOfOne(bs[0]);
      InRangeConcat(First(bs[0]), Second(bs[0], 0), PAD, PAD, []);
    } else if |bs| == 2 {
      SextetsOfTwo(bs[0], bs[1]);
      InRangeConcat(First(bs[0]), Second(bs[0], bs[1]), Third(bs[1], 0), PAD, []);
    } else if |bs| >= 3 {
      SextetsOfBytes(bs[0], bs[1], bs[2]);
      SextetsInRange(bs[3..]);
      InRangeConcat(First(bs[0]), Second(bs[0], bs[1]), Third(bs[1], bs[2]), Fourth(bs[2]), ToSextets(bs[3..]));
    }
  }

  // ---------------------------------------------------------------- sextets and characters

  function Symbol(v: int): char {
    if 0 <= v < 26 then ('A' as int + v) as char
    else if 26 <= v < 52 then ('a' as int + (v - 26)) as char
    else if 52 <= v < 62 then ('0' as int + (v - 52)) as char
    else if v == 62 then '+'
    else if v == 63 then '/'
    else '='
  }

  /** The value of a symbol or of the padding, or -1 for any other character. */
  function Value(c: char): int {
    if 'A' <= c <= 'Z' then c as int - 'A' as int
    else if 'a' <= c <= 'z' then c as int - 'a' as int + 26
    else if '0' <= c <= '9' then c as int - '0' as int + 52
    else if c == '+' then 62
    else if c == '/' then 63
    else if c == '=' then PAD
    else -1
  }

  function Symbols(q: seq<int>): seq<char> {
    seq(|q|, i requires 0 <= i < |q| => Symbol(q[i]))
  }

  function Values(s: string): seq<int> {
    seq(|s|, i requires 0 <= i < |s| => Value(s[i]))
  }

  function Encode64(bs: seq<byte>): string {
    Symbols(ToSextets(bs))
  }

  function Decode64(s: string): Option<seq<byte>> {
    FromSextets(Values(s))
  }

  const DIGITS := "0123456789"

  lemma DigitsRun(v: nat)
    requires v < 10
    ensures |DIGITS| == 10 && DIGITS[v] == ('0' as int + v) as char
  {
  }

  /** The alphabet is that of section 4 of RFC 4648. */
  lemma SymbolOfAlphabet(v: int)
    requires 0 <= v <= PAD
    ensures |UPPER + LOWER + DIGITS + "+/="| == PAD + 1
    ensures Symbol(v) == (UPPER + LOWER + DIGITS + "+/=")[v]
  {
    LettersRun(if v < 26 then v else if v < 52 then v - 26 else 0);
    DigitsRun(if 52 <= v < 62 then v - 52 else 0);
  }

  lemma ValueOfSymbol(v: int)
    requires 0 <= v <= PAD
    ensures Value(Symbol(v)) == v
  {
  }

  lemma SymbolOfValue(c: char)
    requires 0 <= Value(c)
    ensures Symbol(Value(c)) == c
  {
  }

  /** Decoding inverts encoding. */
  lemma Decode64Encode64(bs: seq<byte>)
    ensures Decode64(Encode64(bs)) == Some(bs)
  {
    var q := ToSextets(bs);
    SextetsInRange(bs);
    forall i | 0 <= i < |q|
      ensures Values(Symbols(q))[i] == q[i]
    {
      ValueOfSymbol(q[i]);
    }
    assert Values(Symbols(q)) == q;
    FromToSextets(bs);
  }

  /** The decoder accepts nothing but what the encoder prints. */
  lemma Encode64Decode64(s: string)
    requires Decode64(s).Some?
    ensures Encode64(Decode64(s).value) == s
  {
    var q, bs := Values(s), Decode64(s).value;
    ToFromSextets(q);
    SextetsInRange(bs);
    assert InRange(q);
    forall i | 0 <= i < |s|
      ensures Symbols(q)[i] == s[i]
    {
      assert q[i] == Value(s[i]);
      SymbolOfValue(s[i]);
    }
    assert Symbols(q) == s;
  }

  /** Encoded text has no character outside the alphabet and the padding. */
  predicate Printed(s: string) {
    forall i :: 0 <= i < |s| ==> 0 <= Value(s[i])
  }

  lemma Encode64Printed(bs: seq<byte>)
    ensures Printed(Encode64(bs))
  {
    SextetsInRange(bs);
    forall i | 0 <= i < |ToSextets(bs)|
      ensures 0 <= Value(Encode64(bs)[i])
    {
      ValueOfSymbol(ToSextets(bs)[i]);
    }
  }
}
