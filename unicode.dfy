/** Python text as the cipher and the random-result reader see it: strings of code points,
    their UTF-8 encoding (str.encode / bytes.decode with the default strict handler) and
    the stripping of surrounding whitespace. */
module Unicode {
  import opened Errors

  type byte = b: int | 0 <= b < 0x100

  /** A value of Python's ord(): any code point, lone surrogates included. */
  type CodePoint = c: int | 0 <= c < 0x110000

  /** A Python str. Unlike Dafny's char, an element may be a lone surrogate. */
  type PyStr = seq<CodePoint>

  predicate IsSurrogate(c: int) {
    0xD800 <= c <= 0xDFFF
  }

  predicate IsAscii(s: seq<int>) {
    forall i :: 0 <= i < |s| ==> 0 <= s[i] < 0x80
  }

  /** The code points of a Dafny string (used for names and table fields). */
  function Codes(s: string): (r: PyStr)
    ensures |r| == |s|
    ensures forall i :: 0 <= i < |s| ==> r[i] == s[i] as int
  {
    seq(|s|, i requires 0 <= i < |s| => s[i] as int)
  }

  lemma CodesAscii(s: string)
    requires forall i :: 0 <= i < |s| ==> s[i] as int < 0x80
    ensures IsAscii(Codes(s))
  {
  }

  // ----- UTF-8 -----

  predicate IsContinuation(b: byte) {
    0x80 <= b <= 0xBF
  }

  /** The UTF-8 bytes of one scalar value (a code point that is not a surrogate). */
  function EncodeScalar(c: CodePoint): (r: seq<byte>)
    requires !IsSurrogate(c)
    ensures 1 <= |r| <= 4
    ensures r[0] < 0x80 <==> c < 0x80
  {
    if c < 0x80 then [c]
    else if c < 0x800 then [0xC0 + c / 64, 0x80 + c % 64]
    else if c < 0x10000 then [0xE0 + c / 4096, 0x80 + (c / 64) % 64, 0x80 + c % 64]
    else [0xF0 + c / 262144, 0x80 + (c / 4096) % 64, 0x80 + (c / 64) % 64, 0x80 + c % 64]
  }

  /** str.encode(): the UTF-8 encoding of s, or UnicodeEncodeError when s holds a lone
      surrogate. */
  function Utf8Encode(s: PyStr): (r: Result<seq<byte>>)
    ensures r.Success? <==> forall i :: 0 <= i < |s| ==> !IsSurrogate(s[i])
    ensures r.Failure? ==> r.error == UnicodeEncodeError
    ensures r.Success? ==> |r.value| >= |s|
    decreases |s|
  {
    if s == [] then Success([])
    else if IsSurrogate(s[0]) then Failure(UnicodeEncodeError)
    else
      match Utf8Encode(s[1..])
      case Success(tail) => Success(EncodeScalar(s[0]) + tail)
      case Failure(e) => Failure(e)
  }

  lemma Utf8EncodeCons(c: CodePoint, tail: PyStr)
    requires !IsSurrogate(c) && Utf8Encode(tail).Success?
    ensures Utf8Encode([c] + tail) == Success(EncodeScalar(c) + Utf8Encode(tail).value)
  {
    assert ([c] + tail)[1..] == tail;
  }

  /** The scalar value that a well-formed UTF-8 sequence at the head of b denotes, with the
      number of bytes it takes; None where the strict decoder reports an error (a stray
      continuation byte, an overlong form, an encoded surrogate, a value above U+10FFFF,
      or a truncated sequence). */
  function DecodeHead(b: seq<byte>): (r: Option<(CodePoint, nat)>)
    requires b != []
    ensures r.Some? ==> 1 <= r.value.1 <= |b| && !IsSurrogate(r.value.0)
    ensures r.Some? ==> EncodeScalar(r.value.0) == b[..r.value.1]
  {
    var b0: int := b[0];
    if b0 < 0x80 then Some((b0, 1))
    else if 0xC2 <= b0 <= 0xDF then
      if 2 <= |b| && IsContinuation(b[1]) then
        var c := Decode2(b0, b[1]);
        assert b[..2] == [b[0], b[1]];
        Some((c, 2))
      else None
    else if 0xE0 <= b0 <= 0xEF then
      var lo := if b0 == 0xE0 then 0xA0 else 0x80;
      var hi := if b0 == 0xED then 0x9F else 0xBF;
      if 3 <= |b| && lo <= b[1] <= hi && IsContinuation(b[2]) then
        var c := Decode3(b0, b[1], b[2]);
        assert b[..3] == [b[0], b[1], b[2]];
        Some((c, 3))
      else None
    else if 0xF0 <= b0 <= 0xF4 then
      var lo := if b0 == 0xF0 then 0x90 else 0x80;
      var hi := if b0 == 0xF4 then 0x8F else 0xBF;
      if 4 <= |b| && lo <= b[1] <= hi && IsContinuation(b[2]) && IsContinuation(b[3]) then
        var c := Decode4(b0, b[1], b[2], b[3]);
        assert b[..4] == [b[0], b[1], b[2], b[3]];
        Some((c, 4))
      else None
    else None
  }

  /** The value of a two-byte sequence. */
  function Decode2(b0: byte, b1: byte): (c: CodePoint)
    requires 0xC2 <= b0 <= 0xDF && IsContinuation(b1)
    ensures !IsSurrogate(c) && EncodeScalar(c) == [b0, b1]
  {
    var x: int, y: int := b0 - 0xC0, b1 - 0x80;
    DivMod64(x, y);
    x * 64 + y
  }

  /** The value of a three-byte sequence; the bounds on b1 exclude overlong forms and
      surrogates. */
  function Decode3(b0: byte, b1: byte, b2: byte): (c: CodePoint)
    requires 0xE0 <= b0 <= 0xEF && IsContinuation(b1) && IsContinuation(b2)
    requires b0 == 0xE0 ==> 0xA0 <= b1
    requires b0 == 0xED ==> b1 <= 0x9F
    ensures !IsSurrogate(c) && EncodeScalar(c) == [b0, b1, b2]
  {
    var x: int, y: int, z: int := b0 - 0xE0, b1 - 0x80, b2 - 0x80;
    Split3(x, y, z);
    x * 4096 + y * 64 + z
  }

  /** The value of a four-byte sequence; the bounds on b1 exclude overlong forms and
      values above U+10FFFF. */
  function Decode4(b0: byte, b1: byte, b2: byte, b3: byte): (c: CodePoint)
    requires 0xF0 <= b0 <= 0xF4 && IsContinuation(b1) && IsContinuation(b2) && IsContinuation(b3)
    requires b0 == 0xF0 ==> 0x90 <= b1
    requires b0 == 0xF4 ==> b1 <= 0x8F
    ensures !IsSurrogate(c) && EncodeScalar(c) == [b0, b1, b2, b3]
  {
    var w: int, x: int, y: int, z: int := b0 - 0xF0, b1 - 0x80, b2 - 0x80, b3 - 0x80;
    Split4(w, x, y, z);
    w * 262144 + x * 4096 + y * 64 + z
  }

  lemma DivMod64(q: int, r: int)
    requires 0 <= q && 0 <= r < 64
    ensures (q * 64 + r) / 64 == q && (q * 64 + r) % 64 == r
  {
  }

  lemma Split3(x: int, y: int, z: int)
    requires 0 <= x < 16 && 0 <= y < 64 && 0 <= z < 64
    ensures var c := x * 4096 + y * 64 + z;
      c / 4096 == x && (c / 64) % 64 == y && c % 64 == z
  {
    var c := x * 4096 + y * 64 + z;
    DivMod64(x * 64 + y, z);
    DivMod64(x, y);
    assert c == (x * 64 + y) * 64 + z;
    assert c / 64 == x * 64 + y;
  }

  lemma Split4(w: int, x: int, y: int, z: int)
    requires 0 <= w < 8 && 0 <= x < 64 && 0 <= y < 64 && 0 <= z < 64
    ensures var c := w * 262144 + x * 4096 + y * 64 + z;
      c / 262144 == w && (c / 4096) % 64 == x && (c / 64) % 64 == y && c % 64 == z
  {
    var c := w * 262144 + x * 4096 + y * 64 + z;
    assert c == ((w * 64 + x) * 64 + y) * 64 + z;
    DivMod64((w * 64 + x) * 64 + y, z);
    DivMod64(w * 64 + x, y);
    DivMod64(w, x);
    assert c / 64 == (w * 64 + x) * 64 + y;
    assert c / 4096 == (c / 64) / 64;
    assert c / 262144 == (c / 4096) / 64;
  }

  /** bytes.decode(): the text that b encodes, or UnicodeDecodeError when b is not
      well-formed UTF-8. A successful decode is undone by Utf8Encode. */
  function Utf8Decode(b: seq<byte>): (r: Result<PyStr>)
    ensures r.Failure? ==> r.error == UnicodeDecodeError
    ensures r.Success? ==> Utf8Encode(r.value) == Success(b)
    decreases |b|
  {
    if b == [] then Success([])
    else
      match DecodeHead(b)
      case None => Failure(UnicodeDecodeError)
      case Some((c, n)) =>
        match Utf8Decode(b[n..])
        case Success(tail) =>
          DecodedStep(b, c, n, tail);
          Success([c] + tail)
        case Failure(e) => Failure(e)
  }

  /** One decoding step: a decoded head in front of a decoded rest encodes back to b. */
  lemma DecodedStep(b: seq<byte>, c: CodePoint, n: nat, tail: PyStr)
    requires 1 <= n <= |b| && !IsSurrogate(c) && EncodeScalar(c) == b[..n]
    requires Utf8Encode(tail) == Success(b[n..])
    ensures Utf8Encode([c] + tail) == Success(b)
  {
    Utf8EncodeCons(c, tail);
    assert b == b[..n] + b[n..];
  }

  lemma DecodeHeadOfEncoded(c: CodePoint, rest: seq<byte>)
    requires !IsSurrogate(c)
    ensures DecodeHead(EncodeScalar(c) + rest) == Some((c, |EncodeScalar(c)|))
  {
    if c < 0x80 {
      assert (EncodeScalar(c) + rest)[0] == c;
    } else if c < 0x800 {
      DecodeTwo(c, rest);
    } else if c < 0x10000 {
      DecodeThree(c, rest);
    } else {
      DecodeFour(c, rest);
    }
  }

  lemma DecodeTwo(c: CodePoint, rest: seq<byte>)
    requires 0x80 <= c < 0x800
    ensures DecodeHead(EncodeScalar(c) + rest) == Some((c, 2))
  {
    var b := EncodeScalar(c) + rest;
    var b0, b1 := 0xC0 + c / 64, 0x80 + c % 64;
    assert b[0] == b0 && b[1] == b1;
    assert Decode2(b0, b1) == c;
  }

  lemma DecodeThree(c: CodePoint, rest: seq<byte>)
    requires 0x800 <= c < 0x10000 && !IsSurrogate(c)
    ensures DecodeHead(EncodeScalar(c) + rest) == Some((c, 3))
  {
    var b := EncodeScalar(c) + rest;
    var b0, b1, b2 := 0xE0 + c / 4096, 0x80 + (c / 64) % 64, 0x80 + c % 64;
    Split3(c / 4096, (c / 64) % 64, c % 64);
    assert c == (c / 4096) * 4096 + ((c / 64) % 64) * 64 + c % 64;
    assert b[0] == b0 && b[1] == b1 && b[2] == b2;
    assert Decode3(b0, b1, b2) == c;
  }

  lemma DecodeFour(c: CodePoint, rest: seq<byte>)
    requires 0x10000 <= c
    ensures DecodeHead(EncodeScalar(c) + rest) == Some((c, 4))
  {
    var b0, b1, b2, b3 := 0xF0 + c / 262144, 0x80 + (c / 4096) % 64, 0x80 + (c / 64) % 64, 0x80 + c % 64;
    FourByteRanges(c);
    Decode4OfParts(c);
    var b := EncodeScalar(c) + rest;
    assert b[0] == b0 && b[1] == b1 && b[2] == b2 && b[3] == b3;
    DecodeHeadFour(b);
  }

  lemma Decode4OfParts(c: CodePoint)
    requires 0x10000 <= c
    ensures var w, x := c / 262144, (c / 4096) % 64;
      0 <= w <= 4 && (w == 0 ==> 16 <= x) && (w == 4 ==> x <= 15)
    ensures Decode4(0xF0 + c / 262144, 0x80 + (c / 4096) % 64, 0x80 + (c / 64) % 64, 0x80 + c % 64) == c
  {
    var w, x, y, z := c / 262144, (c / 4096) % 64, (c / 64) % 64, c % 64;
    FourByteRanges(c);
    var q1, q2 := c / 64, c / 4096;
    assert c == q1 * 64 + z;
    assert q2 == q1 / 64;
    assert q1 == q2 * 64 + y;
    assert w == q2 / 64;
    assert q2 == w * 64 + x;
    assert c == w * 262144 + x * 4096 + y * 64 + z;
  }

  /** How DecodeHead reads a well-formed four-byte sequence. */
  lemma DecodeHeadFour(b: seq<byte>)
    requires 4 <= |b| && 0xF0 <= b[0] <= 0xF4
    requires IsContinuation(b[1]) && IsContinuation(b[2]) && IsContinuation(b[3])
    requires b[0] == 0xF0 ==> 0x90 <= b[1]
    requires b[0] == 0xF4 ==> b[1] <= 0x8F
    ensures DecodeHead(b) == Some((Decode4(b[0], b[1], b[2], b[3]), 4))
  {
  }

  lemma FourByteRanges(c: CodePoint)
    requires 0x10000 <= c
    ensures var w, x := c / 262144, (c / 4096) % 64;
      0 <= w <= 4 && (w == 0 ==> 16 <= x) && (w == 4 ==> x <= 15)
  {
    var q := c / 4096;
    assert 16 <= q <= 271;
    assert c / 262144 == q / 64;
  }

  /** Round trip: text without lone surrogates survives encoding then decoding. */
  lemma {:induction false} Utf8RoundTrip(s: PyStr)
    requires forall i :: 0 <= i < |s| ==> !IsSurrogate(s[i])
    ensures Utf8Encode(s).Success? && Utf8Decode(Utf8Encode(s).value) == Success(s)
  {
    if s != [] {
      var tail := Utf8Encode(s[1..]).value;
      var e := EncodeScalar(s[0]);
      Utf8RoundTrip(s[1..]);
      DecodeHeadOfEncoded(s[0], tail);
      assert (e + tail)[|e|..] == tail;
      assert s == [s[0]] + s[1..];
    }
  }

  /** The text whose code points are the given byte values. */
  function BytesAsText(b: seq<byte>): (r: PyStr)
    ensures |r| == |b|
    ensures forall i :: 0 <= i < |b| ==> r[i] == b[i]
  {
    seq(|b|, i requires 0 <= i < |b| => b[i])
  }

  /** ASCII text is its own UTF-8 encoding, in both directions. */
  lemma {:induction false} AsciiUtf8(b: seq<byte>)
    requires IsAscii(b)
    ensures Utf8Decode(b) == Success(BytesAsText(b))
    ensures Utf8Encode(BytesAsText(b)) == Success(b)
  {
    if b != [] {
      AsciiUtf8(b[1..]);
      assert b == [b[0]] + b[1..];
      assert BytesAsText(b) == [b[0]] + BytesAsText(b[1..]);
    }
  }

  /** ASCII text encodes to the bytes of its code points. */
  lemma AsciiTextUtf8(s: PyStr)
    requires IsAscii(s)
    ensures Utf8Encode(s).Success?
    ensures IsAscii(Utf8Encode(s).value) && BytesAsText(Utf8Encode(s).value) == s
  {
    var b: seq<byte> := seq(|s|, i requires 0 <= i < |s| => s[i]);
    assert BytesAsText(b) == s;
    AsciiUtf8(b);
  }

  // ----- stripping whitespace -----

  /** str.isspace() of one code point: the characters str.strip() removes. */
  predicate IsSpace(c: int) {
    || 0x09 <= c <= 0x0D
    || 0x1C <= c <= 0x20
    || c == 0x85 || c == 0xA0 || c == 0x1680
    || 0x2000 <= c <= 0x200A
    || c == 0x2028 || c == 0x2029 || c == 0x202F || c == 0x205F || c == 0x3000
  }

  /** s without its leading characters of the set `space`. */
  function TrimLeading(s: PyStr, space: int -> bool): (r: PyStr)
    ensures |r| <= |s| && r == s[|s| - |r|..]
    ensures r != [] ==> !space(r[0])
    ensures (s == [] || !space(s[0])) ==> r == s
    decreases |s|
  {
    if s != [] && space(s[0]) then TrimLeading(s[1..], space) else s
  }

  /** s without its trailing characters of the set `space`. */
  function TrimTrailing(s: PyStr, space: int -> bool): (r: PyStr)
    ensures |r| <= |s| && r == s[..|r|]
    ensures r != [] ==> !space(r[|r| - 1])
    ensures (s == [] || !space(s[|s| - 1])) ==> r == s
    decreases |s|
  {
    if s != [] && space(s[|s| - 1]) then TrimTrailing(s[..|s| - 1], space) else s
  }

  /** s without its leading and trailing characters of the set `space`. */
  function Trim(s: PyStr, space: int -> bool): (r: PyStr)
    ensures r != [] ==> !space(r[0]) && !space(r[|r| - 1])
    ensures (s == [] || (!space(s[0]) && !space(s[|s| - 1]))) ==> r == s
  {
    var l := TrimLeading(s, space);
    var r := TrimTrailing(l, space);
    assert r != [] ==> r[0] == l[0];
    r
  }

  /** str.strip(): s without its leading and trailing whitespace. */
  function Strip(s: PyStr): (r: PyStr)
    ensures r != [] ==> !IsSpace(r[0]) && !IsSpace(r[|r| - 1])
    ensures (s == [] || (!IsSpace(s[0]) && !IsSpace(s[|s| - 1]))) ==> r == s
  {
    Trim(s, IsSpace)
  }

  /** What TrimLeading removes is in the set. */
  lemma {:induction false} TrimLeadingRemovesSpaces(s: PyStr, space: int -> bool)
    ensures forall k :: 0 <= k < |s| - |TrimLeading(s, space)| ==> space(s[k])
    decreases |s|
  {
    if s != [] && space(s[0]) {
      TrimLeadingRemovesSpaces(s[1..], space);
    }
  }

  /** What TrimTrailing removes is in the set. */
  lemma {:induction false} TrimTrailingRemovesSpaces(s: PyStr, space: int -> bool)
    ensures forall k :: |TrimTrailing(s, space)| <= k < |s| ==> space(s[k])
    decreases |s|
  {
    if s != [] && space(s[|s| - 1]) {
      TrimTrailingRemovesSpaces(s[..|s| - 1], space);
    }
  }

  /** Trimming keeps a contiguous middle of s and removes only characters of the set around
      it: the i characters before it and those from j on. */
  lemma TrimRemovesOnlySpaces(s: PyStr, space: int -> bool)
    ensures var i := |s| - |TrimLeading(s, space)|;
            var j := i + |Trim(s, space)|;
            && j <= |s| && Trim(s, space) == s[i..j]
            && (forall k :: 0 <= k < i ==> space(s[k]))
            && (forall k :: j <= k < |s| ==> space(s[k]))
  {
    var l := TrimLeading(s, space);
    TrimLeadingRemovesSpaces(s, space);
    TrimTrailingRemovesSpaces(l, space);
    MiddleOf(s, l, TrimTrailing(l, space), space);
  }

  /** If l is a suffix of s and r a prefix of l, r is a slice of s, and what l has after r
      is what s has after it. */
  lemma MiddleOf(s: PyStr, l: PyStr, r: PyStr, space: int -> bool)
    requires |l| <= |s| && l == s[|s| - |l|..]
    requires |r| <= |l| && r == l[..|r|]
    requires forall k :: |r| <= k < |l| ==> space(l[k])
    ensures var i := |s| - |l|;
            r == s[i..i + |r|] && forall k :: i + |r| <= k < |s| ==> space(s[k])
  {
    var i := |s| - |l|;
    forall k | i + |r| <= k < |s|
      ensures space(s[k])
    {
      assert s[k] == l[k - i];
    }
  }

  /** Text padded with characters of the set, and not starting or ending with one, trims
      back to itself: trimming removes exactly the padding. */
  lemma {:induction false} TrimPadded(pre: PyStr, t: PyStr, post: PyStr, space: int -> bool)
    requires forall k :: 0 <= k < |pre| ==> space(pre[k])
    requires forall k :: 0 <= k < |post| ==> space(post[k])
    requires t != [] && !space(t[0]) && !space(t[|t| - 1])
    ensures Trim(pre + t + post, space) == t
  {
    assert pre + t + post == pre + (t + post);
    TrimLeadingPadded(pre, t + post, space);
    TrimTrailingPadded(t, post, space);
  }

  lemma {:induction false} TrimLeadingPadded(pre: PyStr, rest: PyStr, space: int -> bool)
    requires forall k :: 0 <= k < |pre| ==> space(pre[k])
    requires rest != [] && !space(rest[0])
    ensures TrimLeading(pre + rest, space) == rest
    decreases |pre|
  {
    var s := pre + rest;
    if pre == [] {
      assert s == rest;
    } else {
      assert s[0] == pre[0] && space(s[0]);
      assert s[1..] == pre[1..] + rest;
      TrimLeadingPadded(pre[1..], rest, space);
      assert TrimLeading(s, space) == TrimLeading(s[1..], space);
    }
  }

  lemma {:induction false} TrimTrailingPadded(t: PyStr, post: PyStr, space: int -> bool)
    requires forall k :: 0 <= k < |post| ==> space(post[k])
    requires t != [] && !space(t[|t| - 1])
    ensures TrimTrailing(t + post, space) == t
    decreases |post|
  {
    if post == [] {
      assert t + post == t;
    } else {
      var post' := post[..|post| - 1];
      assert (t + post)[..|t + post| - 1] == t + post';
      TrimTrailingPadded(t, post', space);
    }
  }
}
