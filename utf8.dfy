/**
 * UTF-8 as RFC 3629 defines it, over Dafny's `char` (a Unicode scalar value).
 * Both ends of the protocol put strings on the wire as UTF-8: the server with `str::as_bytes`
 * and `String::from_utf8_lossy`, the browser with `TextEncoder` and `TextDecoder`. The two
 * decoders replace every maximal ill-formed subsequence by U+FFFD; `DecodeLossy` does the same.
 */
module Utf8 {
  import opened Bytes

  const REPLACEMENT: char := '\U{FFFD}'

  /** The UTF-8 sequence of one scalar value (RFC 3629, section 3). */
  function EncodeChar(c: char): (r: seq<byte>)
    ensures 1 <= |r| <= 4
  {
    var cp := c as int;
    if cp < 0x80 then [cp]
    else if cp < 0x800 then [0xC0 + cp / 64, 0x80 + cp % 64]
    else if cp < 0x10000 then [0xE0 + cp / 4096, 0x80 + cp / 64 % 64, 0x80 + cp % 64]
    else [0xF0 + cp / 0x40000, 0x80 + cp / 4096 % 64, 0x80 + cp / 64 % 64, 0x80 + cp % 64]
  }

  function Encode(s: string): seq<byte>
  {
    if s == [] then [] else EncodeChar(s[0]) + Encode(s[1..])
  }

  /** The number of bytes `EncodeChar` takes, read off the scalar value's range. */
  function CharLength(c: char): nat
  {
    if c as int < 0x80 then 1 else if c as int < 0x800 then 2 else if c as int < 0x10000 then 3 else 4
  }

  /** The byte length of a string's UTF-8 form, what Rust's `str::len` returns. */
  function EncodedLength(s: string): nat
  {
    if s == [] then 0 else CharLength(s[0]) + EncodedLength(s[1..])
  }

  lemma {:induction false} EncodedLengthIsLength(s: string)
    ensures |Encode(s)| == EncodedLength(s)
  {
    if s != [] {
      EncodedLengthIsLength(s[1..]);
    }
  }

  predicate IsContinuation(b: byte)
  {
    0x80 <= b <= 0xBF
  }

  /** The length of the sequence that a lead byte starts, 0 for a byte that cannot start one. */
  function SequenceLength(b: byte): nat
  {
    if b < 0x80 then 1
    else if 0xC2 <= b <= 0xDF then 2
    else if 0xE0 <= b <= 0xEF then 3
    else if 0xF0 <= b <= 0xF4 then 4
    else 0
  }

  /** The bounds RFC 3629's table puts on the byte after a lead byte (no overlongs, no surrogates). */
  function SecondLow(lead: byte): byte
  {
    if lead == 0xE0 then 0xA0 else if lead == 0xF0 then 0x90 else 0x80
  }

  function SecondHigh(lead: byte): byte
  {
    if lead == 0xED then 0x9F else if lead == 0xF4 then 0x8F else 0xBF
  }

  /** How many leading bytes of bs are a prefix of one well-formed sequence. */
  function ValidPrefix(bs: seq<byte>): (k: nat)
    requires |bs| > 0
    ensures k <= |bs| && k <= SequenceLength(bs[0])
  {
    var n := SequenceLength(bs[0]);
    if n == 0 then 0
    else if n == 1 || |bs| < 2 || !(SecondLow(bs[0]) <= bs[1] <= SecondHigh(bs[0])) then 1
    else if n == 2 || |bs| < 3 || !IsContinuation(bs[2]) then 2
    else if n == 3 || |bs| < 4 || !IsContinuation(bs[3]) then 3
    else 4
  }

  /** The scalar value of a well-formed sequence of n bytes. */
  function Assemble(bs: seq<byte>, n: nat): char
    requires |bs| > 0 && 1 <= n == SequenceLength(bs[0]) && ValidPrefix(bs) == n
  {
    var b0: int := bs[0];
    if n == 1 then b0 as char
    else if n == 2 then ((b0 - 0xC0) * 64 + (bs[1] as int - 0x80)) as char
    else if n == 3 then ((b0 - 0xE0) * 4096 + (bs[1] as int - 0x80) * 64 + (bs[2] as int - 0x80)) as char
    else ((b0 - 0xF0) * 0x40000 + (bs[1] as int - 0x80) * 4096 + (bs[2] as int - 0x80) * 64 + (bs[3] as int - 0x80)) as char
  }

  /** The character at the front of bs and the number of bytes it takes, when they are well-formed. */
  function DecodeChar(bs: seq<byte>): (r: Option<(char, nat)>)
    requires |bs| > 0
    ensures r.Some? ==> 1 <= r.value.1 <= |bs|
  {
    var n := SequenceLength(bs[0]);
    if n == 0 || ValidPrefix(bs) < n then None else Some((Assemble(bs, n), n))
  }

  /** Strict decoding: None unless all of bs is well-formed UTF-8. */
  function Decode(bs: seq<byte>): Option<string>
    decreases |bs|
  {
    if bs == [] then Some([])
    else match DecodeChar(bs)
      case None => None
      case Some((c, n)) =>
        match Decode(bs[n..])
        case None => None
        case Some(rest) => Some([c] + rest)
  }

  /** Lossy decoding: each maximal ill-formed subsequence becomes one U+FFFD. */
  function DecodeLossy(bs: seq<byte>): string
    decreases |bs|, 1
  {
    if bs == [] then [] else DecodeLossyStep(bs)
  }

  /** One step of the lossy decoder on a non-empty input: the first character, or one U+FFFD. */
  function DecodeLossyStep(bs: seq<byte>): string
    requires bs != []
    decreases |bs|, 0
  {
    match DecodeChar(bs)
    case Some((c, n)) => [c] + DecodeLossy(bs[n..])
    case None =>
      var skip := if ValidPrefix(bs) == 0 then 1 else ValidPrefix(bs);
      [REPLACEMENT] + DecodeLossy(bs[skip..])
  }

  lemma EncodeCharTwo(c: char, rest: seq<byte>)
    requires 0x80 <= c as int < 0x800
    ensures DecodeChar(EncodeChar(c) + rest) == Some((c, 2))
  {
    var cp := c as int;
    var bs := EncodeChar(c) + rest;
    assert bs[0] == 0xC0 + cp / 64 && bs[1] == 0x80 + cp % 64;
    assert SequenceLength(bs[0]) == 2 && ValidPrefix(bs) == 2;
    assert (bs[0] as int - 0xC0) * 64 + (bs[1] as int - 0x80) == cp;
  }

  lemma EncodeCharThree(c: char, rest: seq<byte>)
    requires 0x800 <= c as int < 0x10000
    ensures DecodeChar(EncodeChar(c) + rest) == Some((c, 3))
  {
    var cp := c as int;
    var bs := EncodeChar(c) + rest;
    var hi, mid, lo := cp / 4096, cp / 64 % 64, cp % 64;
    assert cp == hi * 4096 + mid * 64 + lo;
    assert bs[0] == 0xE0 + hi && bs[1] == 0x80 + mid && bs[2] == 0x80 + lo;
    assert SequenceLength(bs[0]) == 3;
    assert ValidPrefix(bs) == 3;
  }

  /** The four 6-bit digits (3 in the top one) of a supplementary-plane code point. */
  lemma FourDigits(cp: int)
    requires 0x10000 <= cp < 0x110000
    ensures var top, hi, mid, lo := cp / 0x40000, cp / 4096 % 64, cp / 64 % 64, cp % 64;
      && cp == top * 0x40000 + hi * 4096 + mid * 64 + lo
      && 0 <= top <= 4 && 0 <= hi < 64 && 0 <= mid < 64 && 0 <= lo < 64
      && (top == 0 ==> hi >= 0x10) && (top == 4 ==> hi < 0x10)
  {
    var q := cp / 4096;
    assert cp == q * 4096 + cp % 4096;
    assert cp % 4096 == cp / 64 % 64 * 64 + cp % 64;
    assert q == cp / 0x40000 * 64 + q % 64;
  }

  lemma EncodeCharFour(c: char, rest: seq<byte>)
    requires 0x10000 <= c as int
    ensures DecodeChar(EncodeChar(c) + rest) == Some((c, 4))
  {
    var cp := c as int;
    var bs := EncodeChar(c) + rest;
    FourDigits(cp);
    var top, hi, mid, lo := cp / 0x40000, cp / 4096 % 64, cp / 64 % 64, cp % 64;
    assert bs[0] == 0xF0 + top && bs[1] == 0x80 + hi && bs[2] == 0x80 + mid && bs[3] == 0x80 + lo;
    assert SequenceLength(bs[0]) == 4;
    assert ValidPrefix(bs) == 4;
  }

  /** The decoder reads back exactly the character the encoder wrote, whatever follows it. */
  lemma DecodeEncodeChar(c: char, rest: seq<byte>)
    ensures DecodeChar(EncodeChar(c) + rest) == Some((c, |EncodeChar(c)|))
  {
    var cp := c as int;
    if cp < 0x80 {
    } else if cp < 0x800 {
      EncodeCharTwo(c, rest);
    } else if cp < 0x10000 {
      EncodeCharThree(c, rest);
    } else {
      EncodeCharFour(c, rest);
    }
  }

  lemma CanonicalTwo(bs: seq<byte>)
    requires |bs| >= 2 && SequenceLength(bs[0]) == 2 && ValidPrefix(bs) == 2
    ensures EncodeChar(Assemble(bs, 2)) == bs[..2]
  {
    var b0, b1: int := bs[0], bs[1];
    var cp := (b0 - 0xC0) * 64 + (b1 - 0x80);
    assert Assemble(bs, 2) as int == cp;
    assert cp / 64 == b0 - 0xC0 && cp % 64 == b1 - 0x80;
  }

  lemma CanonicalThree(bs: seq<byte>)
    requires |bs| >= 3 && SequenceLength(bs[0]) == 3 && ValidPrefix(bs) == 3
    ensures EncodeChar(Assemble(bs, 3)) == bs[..3]
  {
    var b0, b1, b2: int := bs[0], bs[1], bs[2];
    var cp := (b0 - 0xE0) * 4096 + (b1 - 0x80) * 64 + (b2 - 0x80);
    assert Assemble(bs, 3) as int == cp;
    assert cp / 64 == (b0 - 0xE0) * 64 + (b1 - 0x80);
    assert cp / 4096 == b0 - 0xE0 && cp / 64 % 64 == b1 - 0x80 && cp % 64 == b2 - 0x80;
  }

  lemma CanonicalFour(bs: seq<byte>)
    requires |bs| >= 4 && SequenceLength(bs[0]) == 4 && ValidPrefix(bs) == 4
    ensures EncodeChar(Assemble(bs, 4)) == bs[..4]
  {
    var b0, b1, b2, b3: int := bs[0], bs[1], bs[2], bs[3];
    var cp := (b0 - 0xF0) * 0x40000 + (b1 - 0x80) * 4096 + (b2 - 0x80) * 64 + (b3 - 0x80);
    assert Assemble(bs, 4) as int == cp;
    assert cp / 64 == (b0 - 0xF0) * 4096 + (b1 - 0x80) * 64 + (b2 - 0x80);
    assert cp / 4096 == (b0 - 0xF0) * 64 + (b1 - 0x80);
    assert cp / 0x40000 == b0 - 0xF0 && cp / 4096 % 64 == b1 - 0x80;
    assert cp / 64 % 64 == b2 - 0x80 && cp % 64 == b3 - 0x80;
  }

  /** A well-formed sequence is the encoding of the character it decodes to (no overlong forms). */
  lemma EncodeDecodeChar(bs: seq<byte>)
    requires |bs| > 0 && DecodeChar(bs).Some?
    ensures EncodeChar(DecodeChar(bs).value.0) == bs[..DecodeChar(bs).value.1]
  {
    var n := SequenceLength(bs[0]);
    if n == 2 {
      CanonicalTwo(bs);
    } else if n == 3 {
      CanonicalThree(bs);
    } else if n == 4 {
      CanonicalFour(bs);
    }
  }

  lemma EncodeCons(c: char, s: string)
    ensures Encode([c] + s) == EncodeChar(c) + Encode(s)
  {
    assert ([c] + s)[1..] == s;
  }

  /** Encoding distributes over concatenation. */
  lemma {:induction false} EncodeAppend(s: string, t: string)
    ensures Encode(s + t) == Encode(s) + Encode(t)
  {
    if s != [] {
      assert (s + t)[0] == s[0] && (s + t)[1..] == s[1..] + t;
      EncodeAppend(s[1..], t);
      assert Encode(s + t) == EncodeChar(s[0]) + (Encode(s[1..]) + Encode(t));
    } else {
      assert s + t == t;
    }
  }

  /** Round trip: strict decoding of an encoding gives the string back. */
  lemma {:induction false} DecodeEncode(s: string)
    ensures Decode(Encode(s)) == Some(s)
  {
    if s != [] {
      var head := EncodeChar(s[0]);
      DecodeEncodeChar(s[0], Encode(s[1..]));
      assert (head + Encode(s[1..]))[|head|..] == Encode(s[1..]);
      DecodeEncode(s[1..]);
      assert [s[0]] + s[1..] == s;
    }
  }

  /** The other direction: whatever strict decoding accepts is the encoding of its result. */
  lemma {:induction false} EncodeDecode(bs: seq<byte>)
    requires Decode(bs).Some?
    ensures Encode(Decode(bs).value) == bs
    decreases |bs|
  {
    if bs != [] {
      var c, n := DecodeChar(bs).value.0, DecodeChar(bs).value.1;
      EncodeDecodeChar(bs);
      EncodeDecode(bs[n..]);
      EncodeCons(c, Decode(bs[n..]).value);
      assert bs == bs[..n] + bs[n..];
    }
  }

  /** On well-formed input the lossy decoder replaces nothing. */
  lemma {:induction false} LossyAgreesWhenWellFormed(bs: seq<byte>)
    requires Decode(bs).Some?
    ensures DecodeLossy(bs) == Decode(bs).value
    decreases |bs|
  {
    if bs != [] {
      var n := DecodeChar(bs).value.1;
      LossyAgreesWhenWellFormed(bs[n..]);
    }
  }

  /** Round trip through the lossy decoder, the one both ends of the protocol use. */
  lemma DecodeLossyEncode(s: string)
    ensures DecodeLossy(Encode(s)) == s
  {
    DecodeEncode(s);
    LossyAgreesWhenWellFormed(Encode(s));
  }

  predicate IsAscii(s: string)
  {
    forall i :: 0 <= i < |s| ==> s[i] as int < 0x80
  }

  /** A string takes at least one byte per character, exactly one when it is ASCII. */
  lemma {:induction false} EncodeLength(s: string)
    ensures |s| <= |Encode(s)|
    ensures IsAscii(s) ==> |Encode(s)| == |s|
  {
    if s != [] {
      EncodeLength(s[1..]);
    }
  }
}
