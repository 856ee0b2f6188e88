/** UTF-8 (RFC 3629, section 3): the encoding of a text and its strict decoding. */
module Utf8 {
  import opened ByteStrings
  import opened Common

  /** How many bytes a character takes. */
  function CharSize(c: char): (n: nat)
    ensures 1 <= n <= 4
  {
    var n := c as int;
    if n < 0x80 then 1 else if n < 0x800 then 2 else if n < 0x10000 then 3 else 4
  }

  function EncodeChar(c: char): (b: Bytes)
    ensures |b| == CharSize(c)
  {
    var n := c as int;
    if n < 0x80 then [n as byte]
    else if n < 0x800 then [(0xC0 + n / 64) as byte, (0x80 + n % 64) as byte]
    else if n < 0x10000 then
      [(0xE0 + n / 4096) as byte, (0x80 + n / 64 % 64) as byte, (0x80 + n % 64) as byte]
    else
      [(0xF0 + n / 262144) as byte, (0x80 + n / 4096 % 64) as byte, (0x80 + n / 64 % 64) as byte,
       (0x80 + n % 64) as byte]
  }

  function Encode(s: string): Bytes {
    if s == "" then [] else EncodeChar(s[0]) + Encode(s[1..])
  }

  /** The length of the encoding. */
  function Size(s: string): nat {
    if s == "" then 0 else CharSize(s[0]) + Size(s[1..])
  }

  /** The payload of a continuation byte, if there is one at this position. */
  function Continuation(b: Bytes, at: nat): Option<int> {
    if at < |b| && 0x80 <= b[at] < 0xC0 then Some(b[at] as int - 0x80) else None
  }

  /** A code point of `size` bytes is acceptable if it needs them all and is a scalar value. */
  function Scalar(n: int, size: nat): Option<char> {
    if (0 <= n < 0xD800 || 0xE000 <= n < 0x110000) && CharSize(n as char) == size then Some(n as char) else None
  }

  /** The first character of a byte sequence. */
  function DecodeChar(b: Bytes): Option<char>
    requires b != []
  {
    var n := b[0] as int;
    if n < 0x80 then Some(n as char)
    else if 0xC0 <= n < 0xE0 then
      match Continuation(b, 1)
      case Some(x) => Scalar((n - 0xC0) * 64 + x, 2)
      case None => None
    else if 0xE0 <= n < 0xF0 then
      match (Continuation(b, 1), Continuation(b, 2))
      case (Some(x), Some(y)) => Scalar((n - 0xE0) * 4096 + x * 64 + y, 3)
      case _ => None
    else if 0xF0 <= n < 0xF8 then
      match (Continuation(b, 1), Continuation(b, 2), Continuation(b, 3))
      case (Some(x), Some(y), Some(z)) => Scalar((n - 0xF0) * 262144 + x * 4096 + y * 64 + z, 4)
      case _ => None
    else None
  }

  function Decode(b: Bytes): Option<string>
    decreases |b|
  {
    if b == [] then Some("")
    else match DecodeChar(b)
      case None => None
      case Some(c) =>
        if |b| < CharSize(c) then None
        else match Decode(b[CharSize(c)..])
          case None => None
          case Some(s) => Some([c] + s)
  }

  lemma DivDiv(n: nat)
    ensures n / 4096 == n / 64 / 64
  {
    var q := n / 64;
    assert n == 4096 * (q / 64) + (64 * (q % 64) + n % 64);
  }

  /** A number by its digits in base 64. */
  lemma Digits(n: nat)
    ensures n == n / 64 * 64 + n % 64
    ensures n == n / 4096 * 4096 + n / 64 % 64 * 64 + n % 64
    ensures n == n / 262144 * 262144 + n / 4096 % 64 * 4096 + n / 64 % 64 * 64 + n % 64
  {
    DivDiv(n);
    DivDiv(n / 64);
    assert n / 262144 == n / 4096 / 64;
  }

  lemma DecodeEncodeChar(c: char, rest: Bytes)
    ensures DecodeChar(EncodeChar(c) + rest) == Some(c)
  {
    var n := c as int;
    var code := EncodeChar(c);
    var b := code + rest;
    Digits(n);
    assert b[0] == code[0];
    if n >= 0x80 {
      assert b[1] == code[1] && Continuation(b, 1) == Some(code[1] as int - 0x80);
    }
    if n >= 0x800 {
      assert b[2] == code[2] && Continuation(b, 2) == Some(code[2] as int - 0x80);
    }
    if n >= 0x10000 {
      assert b[3] == code[3] && Continuation(b, 3) == Some(code[3] as int - 0x80);
    }
    hide Continuation;
  }

  /** Every encoded text decodes to itself. */
  lemma {:induction false} DecodeEncode(s: string)
    ensures Decode(Encode(s)) == Some(s)
  {
    if s != "" {
      DecodeEncodeChar(s[0], Encode(s[1..]));
      assert Encode(s)[CharSize(s[0])..] == Encode(s[1..]);
      DecodeEncode(s[1..]);
      assert [s[0]] + s[1..] == s;
    }
  }

  lemma SixBits(a: int, x: int)
    requires 0 <= x < 64
    ensures (a * 64 + x) / 64 == a && (a * 64 + x) % 64 == x
  {
  }

  lemma EncodeDecodeThree(n: int, x: int, y: int, c: char)
    requires 0 <= x < 64 && 0 <= y < 64 && Scalar(n * 4096 + x * 64 + y, 3) == Some(c)
    ensures (c as int) / 4096 == n && (c as int) / 64 % 64 == x && (c as int) % 64 == y
  {
    SixBits(n * 64 + x, y);
    SixBits(n, x);
  }

  lemma EncodeDecodeFour(n: int, x: int, y: int, z: int, c: char)
    requires 0 <= x < 64 && 0 <= y < 64 && 0 <= z < 64
    requires Scalar(n * 262144 + x * 4096 + y * 64 + z, 4) == Some(c)
    ensures (c as int) / 262144 == n && (c as int) / 4096 % 64 == x
    ensures (c as int) / 64 % 64 == y && (c as int) % 64 == z
  {
    SixBits(n * 4096 + x * 64 + y, z);
    SixBits(n * 64 + x, y);
    SixBits(n, x);
  }

  lemma EncodeDecodeChar(b: Bytes)
    requires b != [] && DecodeChar(b).Some?
    ensures var c := DecodeChar(b).value; CharSize(c) <= |b| && b[..CharSize(c)] == EncodeChar(c)
  {
    var n, c := b[0] as int, DecodeChar(b).value;
    if 0xE0 <= n < 0xF0 {
      EncodeDecodeThree(n - 0xE0, Continuation(b, 1).value, Continuation(b, 2).value, c);
    } else if 0xF0 <= n < 0xF8 {
      EncodeDecodeFour(n - 0xF0, Continuation(b, 1).value, Continuation(b, 2).value, Continuation(b, 3).value, c);
    }
  }

  /** The bytes after the lead byte are continuation bytes. */
  predicate Continued(b: Bytes) {
    forall k :: 1 <= k < |b| ==> 0x80 <= b[k] <= 0xBF
  }

  /** The table of RFC 3629, section 3: the ranges, the lead byte, and six bits in each byte after it. */
  predicate InTable(n: int, b: Bytes) {
    && b != [] && Continued(b)
    && match |b|
       case 1 => n <= 0x7F && n == b[0] as int
       case 2 =>
         && 0x80 <= n <= 0x7FF && 0xC0 <= b[0] <= 0xDF
         && n == (b[0] as int - 0xC0) * 64 + (b[1] as int - 0x80)
       case 3 =>
         && 0x800 <= n <= 0xFFFF && 0xE0 <= b[0] <= 0xEF
         && n == (b[0] as int - 0xE0) * 4096 + (b[1] as int - 0x80) * 64 + (b[2] as int - 0x80)
       case 4 =>
         && 0x10000 <= n <= 0x10FFFF && 0xF0 <= b[0] <= 0xF7
         && n == (b[0] as int - 0xF0) * 262144 + (b[1] as int - 0x80) * 4096
                 + (b[2] as int - 0x80) * 64 + (b[3] as int - 0x80)
       case _ => false
  }

  lemma EncodedInTable(c: char)
    ensures InTable(c as int, EncodeChar(c))
  {
    Digits(c as int);
  }

  lemma TableDecodes(c: char, b: Bytes)
    requires InTable(c as int, b)
    ensures b != [] && DecodeChar(b) == Some(c) && |b| == CharSize(c)
  {
  }

  /** A character is encoded as the one row of the table that spells it. */
  lemma EncodeCharExactly(c: char, b: Bytes)
    ensures EncodeChar(c) == b <==> InTable(c as int, b)
  {
    hide *;
    EncodedInTable(c);
    if InTable(c as int, b) {
      TableDecodes(c, b);
      EncodeDecodeChar(b);
      assert b[..|b|] == b;
    }
  }

  lemma EncodeCons(c: char, s: string)
    ensures Encode([c] + s) == EncodeChar(c) + Encode(s)
  {
    assert ([c] + s)[1..] == s;
  }

  lemma DecodeCons(b: Bytes)
    requires b != [] && Decode(b).Some?
    ensures DecodeChar(b).Some? && CharSize(DecodeChar(b).value) <= |b|
    ensures var c := DecodeChar(b).value; var rest := b[CharSize(c)..];
      Decode(rest).Some? && Decode(b).value == [c] + Decode(rest).value
  {
  }

  /** And only the encoding of a text decodes to it. */
  lemma {:induction false} EncodeDecode(b: Bytes)
    requires Decode(b).Some?
    ensures Encode(Decode(b).value) == b
    decreases |b|
  {
    if b != [] {
      hide Decode, Encode, DecodeChar, EncodeChar;
      DecodeCons(b);
      EncodeDecodeChar(b);
      var c := DecodeChar(b).value;
      var rest := b[CharSize(c)..];
      EncodeDecode(rest);
      EncodeCons(c, Decode(rest).value);
      assert b == b[..CharSize(c)] + rest;
    }
  }

  lemma {:induction false} SizeIsLength(s: string)
    ensures Size(s) == |Encode(s)|
  {
    if s != "" {
      SizeIsLength(s[1..]);
    }
  }

  lemma {:induction false} EncodeAppend(a: string, b: string)
    ensures Encode(a + b) == Encode(a) + Encode(b)
  {
    if a == "" {
      assert a + b == b;
    } else {
      assert (a + b)[1..] == a[1..] + b;
      EncodeAppend(a[1..], b);
    }
  }

  lemma SizeAppend(a: string, b: string)
    ensures Size(a + b) == Size(a) + Size(b)
  {
    EncodeAppend(a, b);
    SizeIsLength(a);
    SizeIsLength(b);
    SizeIsLength(a + b);
  }

  /** The bytes between the offsets of two characters are the encoding of the text between them. */
  lemma EncodeSlice(s: string, i: nat, j: nat)
    requires i <= j <= |s|
    ensures Size(s[..i]) <= Size(s[..j]) <= |Encode(s)|
    ensures Encode(s)[Size(s[..i])..Size(s[..j])] == Encode(s[i..j])
    ensures i < j ==> Size(s[..i]) < Size(s[..j])
  {
    assert s[..j] == s[..i] + s[i..j];
    assert s == s[..j] + s[j..];
    SizeAppend(s[..i], s[i..j]);
    EncodeAppend(s[..i], s[i..j]);
    EncodeAppend(s[..j], s[j..]);
    SizeIsLength(s[..i]);
    SizeIsLength(s[i..j]);
    SizeIsLength(s[..j]);
  }
}
