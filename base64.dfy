/** base64.b64encode and base64.b64decode as the cipher calls them: the standard alphabet of
    section 4 of RFC 4648 with '=' padding and no line breaks, and binascii's decoder in its
    default (non-strict) mode, which skips bytes outside the alphabet, stops at a completed
    padding sequence and does not check the unused low bits of the last character. */
module Base64 {
  import opened Errors
  import opened Unicode

  const PadChar: byte := 61  // '='

  /** The character of the standard alphabet for a 6-bit value. */
  function AlphabetChar(v: int): (ch: byte)
    requires 0 <= v < 64
    ensures ch < 0x80 && ch != PadChar
    ensures SextetOf(ch) == v
  {
    if v < 26 then 65 + v          // 'A'..'Z'
    else if v < 52 then 71 + v     // 'a'..'z'
    else if v < 62 then v - 4      // '0'..'9'
    else if v == 62 then 43        // '+'
    else 47                        // '/'
  }

  /** binascii's reverse table: the 6-bit value of an alphabet character, -1 for any other
      byte (the padding character included). */
  function SextetOf(ch: byte): (v: int)
    ensures -1 <= v < 64
    ensures ch == PadChar ==> v == -1
  {
    if 65 <= ch <= 90 then ch - 65
    else if 97 <= ch <= 122 then ch - 71
    else if 48 <= ch <= 57 then ch + 4
    else if ch == 43 then 62
    else if ch == 47 then 63
    else -1
  }

  /** The alphabet is a bijection between the 64 values and the 64 characters. */
  lemma AlphabetBijective(ch: byte)
    requires SextetOf(ch) >= 0
    ensures AlphabetChar(SextetOf(ch)) == ch
  {
  }

  // ----- encoding -----

  /** b64encode: each group of three bytes becomes four characters; a final group of one or
      two bytes is completed with zero bits and padded with '=' to four characters. */
  function B64Encode(data: seq<byte>): (r: seq<byte>)
    decreases |data|
  {
    if |data| == 0 then []
    else if |data| == 1 then
      [AlphabetChar(data[0] / 4), AlphabetChar((data[0] % 4) * 16), PadChar, PadChar]
    else if |data| == 2 then
      [AlphabetChar(data[0] / 4), AlphabetChar((data[0] % 4) * 16 + data[1] / 16),
       AlphabetChar((data[1] % 16) * 4), PadChar]
    else
      [AlphabetChar(data[0] / 4), AlphabetChar((data[0] % 4) * 16 + data[1] / 16),
       AlphabetChar((data[1] % 16) * 4 + data[2] / 64), AlphabetChar(data[2] % 64)]
      + B64Encode(data[3..])
  }

  /** Characters an encoder output may contain. */
  predicate IsEncodingChar(ch: byte) {
    ch == PadChar || SextetOf(ch) >= 0
  }

  /** The encoding is 4 * ceil(n / 3) characters of the alphabet and '=', all ASCII. */
  lemma {:induction false} B64EncodeShape(data: seq<byte>)
    ensures |B64Encode(data)| == 4 * ((|data| + 2) / 3)
    ensures IsAscii(B64Encode(data))
    ensures forall i :: 0 <= i < |B64Encode(data)| ==> IsEncodingChar(B64Encode(data)[i])
    decreases |data|
  {
    if |data| >= 3 {
      B64EncodeShape(data[3..]);
      var head := B64Encode(data)[..4];
      assert B64Encode(data) == head + B64Encode(data[3..]);
    }
  }

  // ----- decoding -----

  /** The decoder state: quad data characters of the current group are read and left holds
      the bits of the last one that are not yet emitted. */
  predicate ValidState(quad: nat, left: int) {
    && quad < 4
    && 0 <= left
    && (quad == 0 ==> left == 0)
    && (quad == 1 ==> left < 64)
    && (quad == 2 ==> left < 16)
    && (quad == 3 ==> left < 4)
  }

  function Cons(x: byte, r: Result<seq<byte>>): (r': Result<seq<byte>>)
    ensures r'.Success? <==> r.Success?
    ensures r'.Failure? ==> r'.error == r.error
    ensures r'.Success? ==> r'.value == [x] + r.value
  {
    match r
    case Success(t) => Success([x] + t)
    case Failure(e) => Failure(e)
  }

  /** a2b_base64 from a decoder state; pads counts the '=' read since the last data
      character, and a group stops the decoding once its data characters and pads make
      four. Input that ends inside a group is an error: one data character past a multiple
      of four is an invalid length, two or three are incorrect padding. */
  function A2bFrom(s: seq<byte>, quad: nat, left: int, pads: nat): (r: Result<seq<byte>>)
    requires ValidState(quad, left)
    ensures r.Failure? ==> r.error == Base64LengthError || r.error == Base64PaddingError
    decreases |s|
  {
    if s == [] then
      if quad == 0 then Success([])
      else if quad == 1 then Failure(Base64LengthError)
      else Failure(Base64PaddingError)
    else if s[0] == PadChar then
      if quad >= 2 && quad + pads + 1 >= 4 then Success([])
      else A2bFrom(s[1..], quad, left, if quad >= 2 then pads + 1 else pads)
    else
      var v := SextetOf(s[0]);
      if v < 0 then A2bFrom(s[1..], quad, left, pads)
      else if quad == 0 then A2bFrom(s[1..], 1, v, 0)
      else if quad == 1 then Cons(left * 4 + v / 16, A2bFrom(s[1..], 2, v % 16, 0))
      else if quad == 2 then Cons(left * 16 + v / 4, A2bFrom(s[1..], 3, v % 4, 0))
      else Cons(left * 64 + v, A2bFrom(s[1..], 0, 0, 0))
  }

  /** b64decode(s), validate=False. */
  function B64Decode(s: seq<byte>): (r: Result<seq<byte>>)
    ensures r.Failure? ==> r.error == Base64LengthError || r.error == Base64PaddingError
  {
    A2bFrom(s, 0, 0, 0)
  }

  /** Four alphabet characters decode to the three bytes they were made from. */
  lemma DecodeQuantum(a: byte, b: byte, c: byte, rest: seq<byte>)
    ensures var q := [AlphabetChar(a / 4), AlphabetChar((a % 4) * 16 + b / 16),
                      AlphabetChar((b % 16) * 4 + c / 64), AlphabetChar(c % 64)];
      A2bFrom(q + rest, 0, 0, 0) == Cons(a, Cons(b, Cons(c, A2bFrom(rest, 0, 0, 0))))
  {
    var c1, c2 := (a % 4) * 16 + b / 16, (b % 16) * 4 + c / 64;
    var q := [AlphabetChar(a / 4), AlphabetChar(c1), AlphabetChar(c2), AlphabetChar(c % 64)];
    var s := q + rest;
    assert s[1..][1..][1..][1..] == rest;
    assert (a / 4) * 4 + c1 / 16 == a;
    assert (c1 % 16) * 16 + c2 / 4 == b;
    assert (c2 % 4) * 64 + c % 64 == c;
    assert A2bFrom(s[1..][1..][1..], 3, c2 % 4, 0) == Cons(c, A2bFrom(rest, 0, 0, 0));
    assert A2bFrom(s[1..][1..], 2, c1 % 16, 0) == Cons(b, Cons(c, A2bFrom(rest, 0, 0, 0)));
  }

  /** A final group of one byte, two characters and two pads, decodes to that byte. */
  lemma DecodeFinalOne(a: byte)
    ensures A2bFrom([AlphabetChar(a / 4), AlphabetChar((a % 4) * 16), PadChar, PadChar], 0, 0, 0)
            == Success([a])
  {
    var c1 := (a % 4) * 16;
    var s := [AlphabetChar(a / 4), AlphabetChar(c1), PadChar, PadChar];
    assert s[1..][1..] == [PadChar, PadChar] && [PadChar, PadChar][1..] == [PadChar];
    assert (a / 4) * 4 + c1 / 16 == a;
    assert A2bFrom([PadChar], 2, c1 % 16, 1) == Success([]);
    assert A2bFrom([PadChar, PadChar], 2, c1 % 16, 0) == Success([]);
    assert A2bFrom(s[1..], 1, a / 4, 0) == Cons(a, Success([]));
    assert SextetOf(s[0]) == a / 4 && s[0] != PadChar;
    assert A2bFrom(s, 0, 0, 0) == A2bFrom(s[1..], 1, a / 4, 0);
    assert [a] + [] == [a];
  }

  /** A final group of two bytes, three characters and one pad, decodes to those bytes. */
  lemma DecodeFinalTwo(a: byte, b: byte)
    ensures A2bFrom([AlphabetChar(a / 4), AlphabetChar((a % 4) * 16 + b / 16),
                     AlphabetChar((b % 16) * 4), PadChar], 0, 0, 0) == Success([a, b])
  {
    var c1, c2 := (a % 4) * 16 + b / 16, (b % 16) * 4;
    var s := [AlphabetChar(a / 4), AlphabetChar(c1), AlphabetChar(c2), PadChar];
    assert s[1..][1..][1..] == [PadChar];
    assert (a / 4) * 4 + c1 / 16 == a;
    assert (c1 % 16) * 16 + c2 / 4 == b;
    assert A2bFrom([PadChar], 3, c2 % 4, 0) == Success([]);
    assert A2bFrom(s[1..][1..], 2, c1 % 16, 0) == Cons(b, Success([]));
    assert A2bFrom(s[1..], 1, a / 4, 0) == Cons(a, Cons(b, Success([])));
    assert SextetOf(s[0]) == a / 4 && s[0] != PadChar;
    assert A2bFrom(s, 0, 0, 0) == A2bFrom(s[1..], 1, a / 4, 0);
    assert [a] + ([b] + []) == [a, b];
  }

  /** Round trip: decoding an encoding gives back the bytes. */
  lemma {:induction false} B64RoundTrip(data: seq<byte>)
    ensures B64Decode(B64Encode(data)) == Success(data)
    decreases |data|
  {
    if |data| == 1 {
      var a := data[0];
      assert B64Encode(data) == [AlphabetChar(a / 4), AlphabetChar((a % 4) * 16), PadChar, PadChar];
      DecodeFinalOne(a);
      assert data == [a];
    } else if |data| == 2 {
      var a, b := data[0], data[1];
      assert B64Encode(data) == [AlphabetChar(a / 4), AlphabetChar((a % 4) * 16 + b / 16),
                                 AlphabetChar((b % 16) * 4), PadChar];
      DecodeFinalTwo(a, b);
      assert data == [a, b];
    } else if |data| >= 3 {
      var a, b, c := data[0], data[1], data[2];
      var q := [AlphabetChar(a / 4), AlphabetChar((a % 4) * 16 + b / 16),
                AlphabetChar((b % 16) * 4 + c / 64), AlphabetChar(c % 64)];
      var rest := B64Encode(data[3..]);
      assert B64Encode(data) == q + rest;
      B64RoundTrip(data[3..]);
      DecodeQuantum(a, b, c, rest);
      assert data == [a] + ([b] + ([c] + data[3..]));
    }
  }

  /** The number of alphabet characters in s. */
  function DataChars(s: seq<byte>): (n: nat)
    ensures n <= |s|
    decreases |s|
  {
    if s == [] then 0 else (if SextetOf(s[0]) >= 0 then 1 else 0) + DataChars(s[1..])
  }

  /** Without any '=' the decoder fails exactly when the data characters do not fill whole
      groups: with one left over the length is invalid, with two or three the padding is
      missing. */
  lemma {:induction false} UnpaddedDecode(s: seq<byte>, quad: nat, left: int, pads: nat)
    requires ValidState(quad, left)
    requires forall i :: 0 <= i < |s| ==> s[i] != PadChar
    ensures A2bFrom(s, quad, left, pads).Failure? <==> (quad + DataChars(s)) % 4 != 0
    ensures A2bFrom(s, quad, left, pads).Failure? ==>
              (A2bFrom(s, quad, left, pads).error == Base64LengthError <==> (quad + DataChars(s)) % 4 == 1)
    decreases |s|
  {
    if s != [] {
      var v := SextetOf(s[0]);
      if v < 0 {
        UnpaddedDecode(s[1..], quad, left, pads);
      } else if quad == 0 {
        UnpaddedDecode(s[1..], 1, v, 0);
      } else if quad == 1 {
        UnpaddedDecode(s[1..], 2, v % 16, 0);
      } else if quad == 2 {
        UnpaddedDecode(s[1..], 3, v % 4, 0);
      } else {
        UnpaddedDecode(s[1..], 0, 0, 0);
      }
    }
  }

  /** b64decode of text without '=' fails exactly when its alphabet characters do not fill
      whole groups: an invalid length with one left over, incorrect padding otherwise. */
  lemma DecodeUnpadded(s: seq<byte>)
    requires forall i :: 0 <= i < |s| ==> s[i] != PadChar
    ensures B64Decode(s).Success? <==> DataChars(s) % 4 == 0
    ensures DataChars(s) % 4 != 0 ==>
              B64Decode(s) == Failure(if DataChars(s) % 4 == 1 then Base64LengthError else Base64PaddingError)
  {
    UnpaddedDecode(s, 0, 0, 0);
  }
}
