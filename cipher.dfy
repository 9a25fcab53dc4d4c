/** The repeating-key XOR cipher of quantralib/cipher.py: every character of the data is
    XORed with the key repeated cyclically, the result is UTF-8 encoded and wrapped in
    Base64 text; decoding unwraps and XORs again. */
module Cipher {
  import opened Errors
  import opened Unicode
  import opened Base64

  /** The key both functions use when none is passed. */
  const DefaultKey: PyStr := Codes("AwesoMePassworD129")

  function Pow2(k: nat): (p: nat)
    ensures p >= 1
  {
    if k == 0 then 1 else 2 * Pow2(k - 1)
  }

  /** Python's ^ on two non-negative integers, bit by bit from the least significant. */
  function Xor(a: nat, b: nat): (r: nat)
    decreases a + b
  {
    if a == 0 && b == 0 then 0 else 2 * Xor(a / 2, b / 2) + (if a % 2 == b % 2 then 0 else 1)
  }

  lemma {:induction false} XorZero(a: nat)
    ensures Xor(a, 0) == a
    decreases a
  {
    if a != 0 {
      XorZero(a / 2);
    }
  }

  /** XORing twice with the same value gives the original back. */
  lemma {:induction false} XorInvolutive(a: nat, b: nat)
    ensures Xor(Xor(a, b), b) == a
    decreases a + b
  {
    if b == 0 {
      XorZero(a);
    } else {
      XorInvolutive(a / 2, b / 2);
      XorLowBit(a, b, Xor(a / 2, b / 2));
    }
  }

  /** One step of the involution: if the high bits come back, so does the whole value. */
  lemma XorLowBit(a: nat, b: nat, x: nat)
    requires b != 0 && Xor(x, b / 2) == a / 2
    ensures Xor(2 * x + (if a % 2 == b % 2 then 0 else 1), b) == a
  {
    var bit := if a % 2 == b % 2 then 0 else 1;
    var c := 2 * x + bit;
    assert c / 2 == x && c % 2 == bit;
    assert Xor(c, b) == 2 * (a / 2) + (if bit == b % 2 then 0 else 1);
  }

  /** Two values below 2^k XOR to a value below 2^k. */
  lemma {:induction false} XorBelow(a: nat, b: nat, k: nat)
    requires a < Pow2(k) && b < Pow2(k)
    ensures Xor(a, b) < Pow2(k)
    decreases k
  {
    if k > 0 && (a != 0 || b != 0) {
      XorBelow(a / 2, b / 2, k - 1);
    }
  }

  // ----- the XOR stage: ''.join(chr(ord(x) ^ ord(y)) for (x, y) in zip(data, cycle(key))) -----

  /** The XOR stage from key position j on: zip stops with the data, and an empty key
      (an empty cycle) stops it at once; chr() refuses a value beyond U+10FFFF. */
  function XorFrom(data: PyStr, key: PyStr, j: nat): (r: Result<PyStr>)
    requires key == [] || j < |key|
    ensures r.Failure? ==> r.error == ValueError
    decreases |data|
  {
    if key == [] || data == [] then Success([])
    else
      var c := Xor(data[0], key[j]);
      if c >= 0x110000 then Failure(ValueError)
      else
        var rest :- XorFrom(data[1..], key, if j + 1 == |key| then 0 else j + 1);
        Success([c] + rest)
  }

  function XorStream(data: PyStr, key: PyStr): (r: Result<PyStr>)
    ensures r.Failure? ==> r.error == ValueError
  {
    XorFrom(data, key, 0)
  }

  /** The code XORed into position i of data when the key starts at position j. */
  function KeyAt(key: PyStr, j: nat, i: nat): CodePoint
    requires key != []
  {
    key[(j + i) % |key|]
  }

  /** Every value the XOR stage produces is a code point chr() accepts. */
  predicate XorInRange(data: PyStr, key: PyStr, j: nat)
    requires key != []
  {
    forall i :: 0 <= i < |data| ==> Xor(data[i], KeyAt(key, j, i)) < 0x110000
  }

  lemma KeyAtNext(key: PyStr, j: nat, i: nat)
    requires key != []
    ensures KeyAt(key, if j + 1 == |key| then 0 else j + 1, i) == KeyAt(key, j, i + 1)
  {
    if j + 1 == |key| {
      AddPeriod(i, |key|);
    }
  }

  /** Euclidean division is unique: q and r with y == q * n + r and 0 <= r < n are y / n and y % n. */
  lemma DivModUnique(y: int, n: int, q: int, r: int)
    requires n > 0 && 0 <= r < n && y == q * n + r
    ensures y / n == q && y % n == r
  {
    var q', r' := y / n, y % n;
    assert y == q' * n + r';
    if q > q' {
      assert (q - q') * n == r' - r;
      MulAtLeast(q - q', n);
    } else if q < q' {
      assert (q' - q) * n == r - r';
      MulAtLeast(q' - q, n);
    }
  }

  lemma MulAtLeast(k: int, n: int)
    requires k >= 1 && n > 0
    ensures k * n >= n
  {
    assert k * n == (k - 1) * n + n;
    assert (k - 1) * n >= 0;
  }

  lemma AddPeriod(x: int, n: int)
    requires n > 0
    ensures (x + n) % n == x % n
  {
    DivModUnique(x + n, n, x / n + 1, x % n);
  }

  /** Closed form of the stage: one output character per input character, position i being
      data[i] XOR key[(j + i) mod |key|]; it fails exactly when one of them is out of range. */
  lemma XorFromSpec(data: PyStr, key: PyStr, j: nat)
    requires key != [] && j < |key|
    ensures XorFrom(data, key, j).Success? <==> XorInRange(data, key, j)
    ensures XorFrom(data, key, j).Success? ==>
              var out := XorFrom(data, key, j).value;
              |out| == |data| && forall i :: 0 <= i < |data| ==> out[i] == Xor(data[i], KeyAt(key, j, i))
  {
    if XorInRange(data, key, j) {
      XorFromInRange(data, key, j);
    } else {
      XorFromOutOfRange(data, key, j);
    }
  }

  lemma KeyAtStart(key: PyStr, j: nat)
    requires j < |key|
    ensures KeyAt(key, j, 0) == key[j]
  {
    DivModUnique(j, |key|, 0, j);
  }

  lemma {:induction false} XorFromInRange(data: PyStr, key: PyStr, j: nat)
    requires key != [] && j < |key| && XorInRange(data, key, j)
    ensures XorFrom(data, key, j).Success?
    ensures var out := XorFrom(data, key, j).value;
            |out| == |data| && forall i :: 0 <= i < |data| ==> out[i] == Xor(data[i], KeyAt(key, j, i))
    decreases |data|
  {
    if data != [] {
      var j' := if j + 1 == |key| then 0 else j + 1;
      KeyAtStart(key, j);
      var c := Xor(data[0], key[j]);
      assert c < 0x110000;
      forall i | 0 <= i < |data| - 1
        ensures data[1..][i] == data[i + 1] && KeyAt(key, j', i) == KeyAt(key, j, i + 1)
      {
        KeyAtNext(key, j, i);
      }
      XorFromInRange(data[1..], key, j');
      var rest := XorFrom(data[1..], key, j').value;
      assert XorFrom(data, key, j) == Success([c] + rest);
    }
  }

  lemma {:induction false} XorFromOutOfRange(data: PyStr, key: PyStr, j: nat)
    requires key != [] && j < |key| && !XorInRange(data, key, j)
    ensures XorFrom(data, key, j).Failure?
    decreases |data|
  {
    var k :| 0 <= k < |data| && Xor(data[k], KeyAt(key, j, k)) >= 0x110000;
    var j' := if j + 1 == |key| then 0 else j + 1;
    KeyAtStart(key, j);
    if k > 0 && Xor(data[0], key[j]) < 0x110000 {
      KeyAtNext(key, j, k - 1);
      assert data[1..][k - 1] == data[k];
      XorFromOutOfRange(data[1..], key, j');
    }
  }

  /** With a non-empty key the XOR stage gives one character per data character, character
      i being data[i] XOR key[i mod |key|]; it fails exactly when one of them is beyond
      U+10FFFF. */
  lemma XorStreamSpec(data: PyStr, key: PyStr)
    requires key != []
    ensures XorStream(data, key).Success? <==>
              forall i :: 0 <= i < |data| ==> Xor(data[i], key[i % |key|]) < 0x110000
    ensures XorStream(data, key).Success? ==>
              var out := XorStream(data, key).value;
              && |out| == |data|
              && forall i :: 0 <= i < |data| ==> out[i] == Xor(data[i], key[i % |key|])
  {
    XorFromSpec(data, key, 0);
    assert forall i :: 0 <= i < |data| ==> KeyAt(key, 0, i) == key[i % |key|];
  }

  /** The XOR stage with an empty key is empty, whatever the data. */
  lemma XorEmptyKey(data: PyStr)
    ensures XorStream(data, []) == Success([])
  {
  }

  /** The XOR stage undoes itself: applied twice with the same non-empty key it returns
      the original text. */
  lemma XorStreamInvolutive(data: PyStr, key: PyStr)
    requires key != [] && XorStream(data, key).Success?
    ensures XorStream(XorStream(data, key).value, key) == Success(data)
  {
    var once := XorStream(data, key).value;
    XorFromSpec(data, key, 0);
    XorFromSpec(once, key, 0);
    forall i | 0 <= i < |once|
      ensures Xor(once[i], KeyAt(key, 0, i)) == data[i]
    {
      XorInvolutive(data[i], KeyAt(key, 0, i));
    }
    assert XorInRange(once, key, 0);
    var twice := XorStream(once, key).value;
    assert twice == data;
  }

  /** ASCII data and key XOR to ASCII text, one character per data character. */
  lemma XorStreamAscii(data: PyStr, key: PyStr)
    requires key != [] && IsAscii(data) && IsAscii(key)
    ensures XorStream(data, key).Success?
    ensures |XorStream(data, key).value| == |data| && IsAscii(XorStream(data, key).value)
  {
    assert Pow2(7) == 0x80;
    forall i | 0 <= i < |data|
      ensures Xor(data[i], KeyAt(key, 0, i)) < 0x80
    {
      XorBelow(data[i], KeyAt(key, 0, i), 7);
    }
    XorFromSpec(data, key, 0);
  }

  // ----- xor_crypt_encode / xor_crypt_decode -----

  /** xor_crypt_encode(data, key): b64encode(xored.encode()).decode(). */
  function XorCryptEncode(data: PyStr, key: PyStr): (r: Result<PyStr>)
    ensures r.Failure? ==> r.error == ValueError || r.error == UnicodeEncodeError
  {
    var xored :- XorStream(data, key);
    var bytes :- Utf8Encode(xored);
    var b64 := B64Encode(bytes);
    B64EncodeShape(bytes);
    AsciiUtf8(b64);
    Utf8Decode(b64)
  }

  /** xor_crypt_decode(data, key): b64decode(data.encode()).decode(), then the XOR stage.
      The key is read from a table and may be None, which cycle() rejects. */
  function XorCryptDecode(data: PyStr, key: Option<PyStr>): (r: Result<PyStr>)
    ensures key.None? ==> r.Failure?
    ensures r.Failure? ==> r.error in {UnicodeEncodeError, Base64LengthError, Base64PaddingError,
                                       UnicodeDecodeError, TypeError, ValueError}
  {
    var bytes :- Utf8Encode(data);
    var raw :- B64Decode(bytes);
    var text :- Utf8Decode(raw);
    if key.None? then Failure(TypeError) else XorStream(text, key.value)
  }

  /** Whenever the XOR stage and its UTF-8 encoding succeed, the encoder succeeds, and its
      output is ASCII Base64 text of the length b64encode gives. */
  lemma EncodeShape(data: PyStr, key: PyStr)
    requires XorStream(data, key).Success? && Utf8Encode(XorStream(data, key).value).Success?
    ensures XorCryptEncode(data, key).Success?
    ensures var bytes := Utf8Encode(XorStream(data, key).value).value;
            var out := XorCryptEncode(data, key).value;
            && |out| == 4 * ((|bytes| + 2) / 3)
            && IsAscii(out)
            && forall i :: 0 <= i < |out| ==> IsEncodingChar(out[i])
  {
    var bytes := Utf8Encode(XorStream(data, key).value).value;
    var b64 := B64Encode(bytes);
    B64EncodeShape(bytes);
    AsciiUtf8(b64);
  }

  /** For ASCII data and key the encoding is 4 * ceil(|data| / 3) Base64 characters. */
  lemma EncodeAscii(data: PyStr, key: PyStr)
    requires key != [] && IsAscii(data) && IsAscii(key)
    ensures XorCryptEncode(data, key).Success?
    ensures var out := XorCryptEncode(data, key).value;
            && |out| == 4 * ((|data| + 2) / 3)
            && IsAscii(out)
            && forall i :: 0 <= i < |out| ==> IsEncodingChar(out[i])
  {
    XorStreamAscii(data, key);
    var xored := XorStream(data, key).value;
    AsciiTextUtf8(xored);
    EncodeShape(data, key);
  }

  /** Round trip: decoding with the key an encoding made with the same non-empty key gives
      the data back. */
  lemma CryptRoundTrip(data: PyStr, key: PyStr)
    requires key != [] && XorCryptEncode(data, key).Success?
    ensures XorCryptDecode(XorCryptEncode(data, key).value, Some(key)) == Success(data)
  {
    var xored := XorStream(data, key).value;
    var bytes := Utf8Encode(xored).value;
    var b64 := B64Encode(bytes);
    var out := XorCryptEncode(data, key).value;
    assert Utf8Encode(out) == Success(b64);
    B64RoundTrip(bytes);
    Utf8RoundTrip(xored);
    XorStreamInvolutive(data, key);
  }

  /** ASCII data and an ASCII, non-empty key always survive the round trip. */
  lemma AsciiRoundTrip(data: PyStr, key: PyStr)
    requires key != [] && IsAscii(data) && IsAscii(key)
    ensures XorCryptEncode(data, key).Success?
    ensures XorCryptDecode(XorCryptEncode(data, key).value, Some(key)) == Success(data)
  {
    EncodeAscii(data, key);
    CryptRoundTrip(data, key);
  }

  /** With an empty key the encoding is empty, so no non-empty data comes back. */
  lemma EmptyKeyLosesData(data: PyStr)
    requires data != []
    ensures XorCryptEncode(data, []) == Success([])
    ensures XorCryptDecode(XorCryptEncode(data, []).value, Some([])) == Success([])
    ensures XorCryptDecode(XorCryptEncode(data, []).value, Some([])) != Success(data)
  {
    assert Utf8Encode([]) == Success([]);
    assert B64Encode([]) == [];
    assert Utf8Decode([]) == Success([]);
    assert B64Decode([]) == Success([]);
  }

  /** The default key is ASCII, so encoding and decoding with it round-trip any ASCII data. */
  lemma DefaultKeyRoundTrip(data: PyStr)
    requires IsAscii(data)
    ensures XorCryptEncode(data, DefaultKey).Success?
    ensures XorCryptDecode(XorCryptEncode(data, DefaultKey).value, Some(DefaultKey)) == Success(data)
  {
    CodesAscii("AwesoMePassworD129");
    AsciiRoundTrip(data, DefaultKey);
  }

  /** The message and key of the module's own self-test. */
  const SampleMessage: string := "This is some interesting message. Hello! @#$"
  const SampleKey: string := "SuperPuperKey"

  lemma SampleAscii()
    ensures forall i :: 0 <= i < |SampleMessage| ==> SampleMessage[i] as int < 0x80
    ensures forall i :: 0 <= i < |SampleKey| ==> SampleKey[i] as int < 0x80
  {
  }

  /** The module's own self-test: the sample message comes back with the sample key. */
  lemma SelfTest()
    ensures XorCryptEncode(Codes(SampleMessage), Codes(SampleKey)).Success?
    ensures XorCryptDecode(XorCryptEncode(Codes(SampleMessage), Codes(SampleKey)).value,
                           Some(Codes(SampleKey))) == Success(Codes(SampleMessage))
  {
    SampleAscii();
    CodesAscii(SampleMessage);
    CodesAscii(SampleKey);
    AsciiRoundTrip(Codes(SampleMessage), Codes(SampleKey));
  }

  /** Base64 text without '=' whose alphabet characters do not fill whole groups of four is
      refused before any key is used: an invalid length with one left over, incorrect padding
      with two or three. */
  lemma DecodeRefusesUnpadded(b: seq<byte>, key: Option<PyStr>)
    requires IsAscii(b) && DataChars(b) % 4 != 0
    requires forall i :: 0 <= i < |b| ==> b[i] != PadChar
    ensures XorCryptDecode(BytesAsText(b), key) ==
              Failure(if DataChars(b) % 4 == 1 then Base64LengthError else Base64PaddingError)
  {
    var e := if DataChars(b) % 4 == 1 then Base64LengthError else Base64PaddingError;
    DecodeUnpadded(b);
    AsciiBase64Refused(b, key, e);
  }

  /** Text whose bytes b64decode refuses is refused by the decoder with the same error. */
  lemma AsciiBase64Refused(b: seq<byte>, key: Option<PyStr>, e: Error)
    requires IsAscii(b) && B64Decode(b) == Failure(e)
    ensures XorCryptDecode(BytesAsText(b), key) == Failure(e)
  {
    AsciiUtf8(b);
  }

  /** A group cut short by a single '=' is incorrect padding: "QQ=" is refused. */
  lemma DecodeRefusesShortPadding(key: Option<PyStr>)
    ensures XorCryptDecode(Codes("QQ="), key) == Failure(Base64PaddingError)
  {
    var b: seq<byte> := [81, 81, 61];
    assert Codes("QQ=") == BytesAsText(b);
    assert IsAscii(b);
    AsciiUtf8(b);
    assert SextetOf(81) == 16;
    assert A2bFrom(b, 0, 0, 0) == A2bFrom(b[1..], 1, 16, 0);
    assert A2bFrom(b[1..], 1, 16, 0) == Cons(65, A2bFrom(b[2..], 2, 0, 0));
    assert A2bFrom(b[2..], 2, 0, 0) == A2bFrom([], 2, 0, 1);
  }

  /** A missing key makes decoding fail with TypeError once the Base64 text is valid. */
  lemma DecodeWithoutKey(data: PyStr)
    requires XorCryptDecode(data, Some([])).Success?
    ensures XorCryptDecode(data, None) == Failure(TypeError)
  {
  }
}
