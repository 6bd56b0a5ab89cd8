/** The primitive decoders the section parsers rely on: unsigned LEB128
    integers limited to 32 bits (section 5.2.2 of the WebAssembly Core
    Specification), length-prefixed names (section 5.2.4) and count-prefixed
    vectors (section 5.1.3), each with the canonical encoder used to state
    round trips. */
module Values {
  import opened Parsing

  function Pow2(n: nat): (r: nat)
    ensures r > 0
  {
    if n == 0 then 1 else 2 * Pow2(n - 1)
  }

  lemma {:induction false} Pow2Add(a: nat, b: nat)
    ensures Pow2(a + b) == Pow2(a) * Pow2(b)
  {
    if a > 0 {
      Pow2Add(a - 1, b);
      assert Pow2(a + b) == 2 * Pow2(a - 1 + b);
    }
  }

  lemma Pow2Seven(bits: nat)
    requires bits >= 7
    ensures Pow2(bits) == 128 * Pow2(bits - 7)
  {
    Pow2Add(7, bits - 7);
    assert Pow2(7) == 128;
  }

  lemma {:induction false} Pow2Monotonic(a: nat, b: nat)
    requires a <= b
    ensures Pow2(a) <= Pow2(b)
  {
    if a < b {
      Pow2Monotonic(a, b - 1);
    }
  }

  /** The number of values of a `u32`: 2^32. */
  const U32Limit: nat := Pow2(32)

  /** Unsigned LEB128 decoding of an integer of `bits` bits (the grammar uN of
      section 5.2.2): a byte below 128 ends the encoding and must itself be
      below 2^bits; a byte of 128 or more carries the low seven bits and is
      followed by the encoding of the rest in `bits - 7` bits, which is only
      allowed while more than seven bits remain. Hence an encoding is at most
      ceil(bits / 7) bytes long and its unused high bits are zero. */
  function ParseUnsigned(bits: nat, s: seq<byte>): (r: Result<nat>)
    requires bits > 0
    ensures r.Ok? ==> r.value < Pow2(bits)
    ensures r.Ok? ==> IsSuffix(r.remaining, s) && 1 <= |s| - |r.remaining| <= (bits + 6) / 7
    decreases bits
  {
    if |s| == 0 then Failure
    else if s[0] < 128 then
      if s[0] < Pow2(bits) then Ok(s[0], s[1..]) else Failure
    else if bits > 7 then
      match ParseUnsigned(bits - 7, s[1..])
      case Failure => Failure
      case Ok(high, rest) =>
        Pow2Seven(bits);
        SuffixTransitive(rest, s[1..], s);
        Ok(128 * high + (s[0] - 128), rest)
    else
      Failure
  }

  /** `parse_u32`: a LEB128 `u32`, one to five bytes. */
  function ParseU32(s: seq<byte>): (r: Result<nat>)
    ensures r.Ok? ==> r.value < U32Limit
    ensures r.Ok? ==> IsSuffix(r.remaining, s) && 1 <= |s| - |r.remaining| <= 5
  {
    ParseUnsigned(32, s)
  }

  /** The canonical (shortest) LEB128 encoding of `n`. */
  function EncodeUnsigned(n: nat): seq<byte>
    decreases n
  {
    if n < 128 then [n] else [128 + n % 128] + EncodeUnsigned(n / 128)
  }

  function EncodeU32(n: nat): seq<byte>
    requires n < U32Limit
  {
    EncodeUnsigned(n)
  }

  lemma {:induction false} UnsignedRoundTrip(bits: nat, n: nat, rest: seq<byte>)
    requires bits > 0 && n < Pow2(bits)
    ensures ParseUnsigned(bits, EncodeUnsigned(n) + rest) == Ok(n, rest)
  {
    if n >= 128 {
      assert bits > 7 by {
        if bits <= 7 {
          Pow2Monotonic(bits, 7);
        }
      }
      Pow2Seven(bits);
      assert n / 128 < Pow2(bits - 7);
      UnsignedRoundTrip(bits - 7, n / 128, rest);
      var first: byte := 128 + n % 128;
      ConcatAssoc([first], EncodeUnsigned(n / 128), rest);
      assert ([first] + (EncodeUnsigned(n / 128) + rest))[1..] == EncodeUnsigned(n / 128) + rest;
      assert 128 * (n / 128) + (first - 128) == n;
    } else {
      assert ([n] + rest)[1..] == rest;
    }
  }

  /** Decoding the encoding of any `u32` gives it back and leaves what
      followed untouched. */
  lemma U32RoundTrip(n: nat, rest: seq<byte>)
    requires n < U32Limit
    ensures ParseU32(EncodeU32(n) + rest) == Ok(n, rest)
  {
    UnsignedRoundTrip(32, n, rest);
  }

  /** A byte below 128 is a complete `u32` on its own. */
  lemma OneByteU32(b: byte, rest: seq<byte>)
    requires b < 128
    ensures ParseU32([b] + rest) == Ok(b, rest)
  {
    Pow2Monotonic(7, 32);
    assert Pow2(7) == 128;
    assert ([b] + rest)[1..] == rest;
  }

  /** The encoding of a `u32` is one to five bytes long. */
  lemma EncodeU32Length(n: nat)
    requires n < U32Limit
    ensures 1 <= |EncodeU32(n)| <= 5
  {
    U32RoundTrip(n, []);
    assert EncodeU32(n) + [] == EncodeU32(n);
  }

  predicate Continuation(b: byte) {
    0x80 <= b <= 0xBF
  }

  /** The length of the well-formed UTF-8 code unit sequence at the front of
      `s` (Table 3-7 of the Unicode Standard), or 0 if there is none. */
  function Utf8Width(s: seq<byte>): (w: nat)
    requires |s| > 0
    ensures w <= |s|
  {
    var b := s[0];
    if b <= 0x7F then 1
    else if 0xC2 <= b <= 0xDF then
      if |s| >= 2 && Continuation(s[1]) then 2 else 0
    else if 0xE0 <= b <= 0xEF then
      var low := if b == 0xE0 then 0xA0 else 0x80;
      var high := if b == 0xED then 0x9F else 0xBF;
      if |s| >= 3 && low <= s[1] <= high && Continuation(s[2]) then 3 else 0
    else if 0xF0 <= b <= 0xF4 then
      var low := if b == 0xF0 then 0x90 else 0x80;
      var high := if b == 0xF4 then 0x8F else 0xBF;
      if |s| >= 4 && low <= s[1] <= high && Continuation(s[2]) && Continuation(s[3]) then 4 else 0
    else 0
  }

  /** `s` is well-formed UTF-8. */
  predicate ValidUtf8(s: seq<byte>)
    decreases |s|
  {
    |s| == 0 || (Utf8Width(s) > 0 && ValidUtf8(s[Utf8Width(s)..]))
  }

  /** Every ASCII string is UTF-8. */
  lemma {:induction false} AsciiIsUtf8(s: seq<byte>)
    requires forall i :: 0 <= i < |s| ==> s[i] <= 0x7F
    ensures ValidUtf8(s)
    decreases |s|
  {
    if |s| > 0 {
      AsciiIsUtf8(s[1..]);
    }
  }

  /** The bytes 0xC0, 0xC1 and 0xF5 to 0xFF never occur in UTF-8. */
  lemma {:induction false} Utf8ExcludedBytes(s: seq<byte>)
    requires ValidUtf8(s)
    ensures forall i :: 0 <= i < |s| ==> s[i] != 0xC0 && s[i] != 0xC1 && s[i] < 0xF5
    decreases |s|
  {
    if |s| > 0 {
      var w := Utf8Width(s);
      Utf8ExcludedBytes(s[w..]);
      forall i | 0 <= i < |s|
        ensures s[i] != 0xC0 && s[i] != 0xC1 && s[i] < 0xF5
      {
        if i >= w {
          assert s[i] == s[w..][i - w];
        }
      }
    }
  }

  /** `parse_name`: a `u32` byte length followed by that many bytes, which
      must be well-formed UTF-8. */
  function ParseName(s: seq<byte>): (r: Result<seq<byte>>)
    ensures r.Ok? ==> ValidUtf8(r.value)
    ensures r.Ok? ==>
      && ParseU32(s).Ok?
      && ParseU32(s).value == |r.value|
      && ParseU32(s).remaining == r.value + r.remaining
  {
    var (length, afterLength) :- ParseU32(s);
    var (bytes, afterName) :- Take(length, afterLength);
    if ValidUtf8(bytes) then Ok(bytes, afterName) else Failure
  }

  /** A name is its length followed by that many UTF-8 bytes. */
  lemma NameAfterLength(s: seq<byte>, name: seq<byte>, rest: seq<byte>)
    requires ValidUtf8(name)
    requires ParseU32(s) == Ok(|name|, name + rest)
    ensures ParseName(s) == Ok(name, rest)
  {
    assert (name + rest)[..|name|] == name;
    assert (name + rest)[|name|..] == rest;
  }

  function EncodeName(name: seq<byte>): seq<byte>
    requires |name| < U32Limit
  {
    EncodeU32(|name|) + name
  }

  /** A well-formed name of at most 2^32 - 1 bytes decodes from its encoding,
      leaving what followed untouched. */
  lemma NameRoundTrip(name: seq<byte>, rest: seq<byte>)
    requires |name| < U32Limit && ValidUtf8(name)
    ensures ParseName(EncodeName(name) + rest) == Ok(name, rest)
  {
    ConcatAssoc(EncodeU32(|name|), name, rest);
    U32RoundTrip(|name|, name + rest);
    NameAfterLength(EncodeName(name) + rest, name, rest);
  }

  /** No name, hence no section that starts with one, can be decoded from no bytes. */
  lemma NameNeedsInput()
    ensures ParseName([]) == Failure
  {
  }

  /** `count` elements in a row, each parsed from what the previous one left. */
  function ParseElements<T>(count: nat, element: Parser<T>, s: seq<byte>): (r: Result<seq<T>>)
    ensures r.Ok? ==> |r.value| == count
    decreases count
  {
    if count == 0 then Ok([], s)
    else
      var (first, afterFirst) :- element(s);
      var (others, afterAll) :- ParseElements(count - 1, element, afterFirst);
      Ok([first] + others, afterAll)
  }

  /** `parse_vector(element)`: a `u32` count followed by that many elements. */
  function ParseVector<T>(element: Parser<T>, s: seq<byte>): (r: Result<seq<T>>)
    ensures r.Ok? ==> ParseU32(s).Ok? && |r.value| == ParseU32(s).value
  {
    var (count, afterCount) :- ParseU32(s);
    ParseElements(count, element, afterCount)
  }

  /** Parsing `a + b` elements is parsing `a` elements and then `b` more from
      where the first `a` stopped: the elements come out in input order. */
  lemma {:induction false} ElementsSplit<T>(a: nat, b: nat, element: Parser<T>, s: seq<byte>)
    ensures ParseElements(a + b, element, s) ==
      match ParseElements(a, element, s)
      case Failure => Failure
      case Ok(front, middle) =>
        match ParseElements(b, element, middle)
        case Failure => Failure
        case Ok(back, r) => Ok(front + back, r)
  {
    if a == 0 {
      match ParseElements(b, element, s)
      case Failure =>
      case Ok(back, r) => assert [] + back == back;
    } else {
      match element(s)
      case Failure =>
      case Ok(first, afterFirst) =>
        ElementsSplit(a - 1, b, element, afterFirst);
        assert a + b - 1 == (a - 1) + b;
        match ParseElements(a - 1, element, afterFirst)
        case Failure =>
        case Ok(front, middle) =>
          match ParseElements(b, element, middle)
          case Failure =>
          case Ok(back, r) => assert [first] + (front + back) == ([first] + front) + back;
    }
  }

  /** Once `k` elements have been parsed, a failing element `k` (with more
      than `k` declared) fails the whole run. */
  lemma ElementFailureFails<T>(k: nat, count: nat, element: Parser<T>, s: seq<byte>)
    requires k < count
    requires ParseElements(k, element, s).Ok?
    requires element(ParseElements(k, element, s).remaining).Failure?
    ensures ParseElements(count, element, s) == Failure
  {
    ElementsSplit(k, count - k, element, s);
  }

  /** With an element parser that always consumes at least one byte, each
      element takes at least one byte and the rest is left untouched. */
  lemma {:induction false} ElementsConsumption<T>(count: nat, element: Parser<T>, s: seq<byte>)
    requires ConsumesPrefix(element)
    requires ParseElements(count, element, s).Ok?
    ensures IsSuffix(ParseElements(count, element, s).remaining, s)
    ensures |s| - |ParseElements(count, element, s).remaining| >= count
  {
    if count == 0 {
    } else {
      var afterFirst := element(s).remaining;
      ElementsConsumption(count - 1, element, afterFirst);
      SuffixTransitive(ParseElements(count, element, s).remaining, afterFirst, s);
    }
  }

  function Flatten(chunks: seq<seq<byte>>): seq<byte> {
    if chunks == [] then [] else chunks[0] + Flatten(chunks[1..])
  }

  /** Each chunk `i` of the encoding decodes to `values[i]`, given what
      follows it (the later chunks, then `rest`). */
  ghost predicate EncodesElements<T>(element: Parser<T>, chunks: seq<seq<byte>>, values: seq<T>, rest: seq<byte>) {
    && |chunks| == |values|
    && forall i :: 0 <= i < |chunks| ==>
         element(chunks[i] + Flatten(chunks[i + 1..]) + rest) == Ok(values[i], Flatten(chunks[i + 1..]) + rest)
  }

  lemma {:induction false} ElementsRoundTrip<T>(element: Parser<T>, chunks: seq<seq<byte>>, values: seq<T>, rest: seq<byte>)
    requires EncodesElements(element, chunks, values, rest)
    ensures ParseElements(|chunks|, element, Flatten(chunks) + rest) == Ok(values, rest)
  {
    if chunks != [] {
      var tail := Flatten(chunks[1..]) + rest;
      assert Flatten(chunks) + rest == chunks[0] + tail;
      assert chunks[1..][0..] == chunks[1..];
      assert element(chunks[0] + tail) == Ok(values[0], tail);
      forall i | 0 <= i < |chunks[1..]|
        ensures element(chunks[1..][i] + Flatten(chunks[1..][i + 1..]) + rest)
             == Ok(values[1..][i], Flatten(chunks[1..][i + 1..]) + rest)
      {
        assert chunks[1..][i + 1..] == chunks[i + 2..];
        assert chunks[1..][i] == chunks[i + 1];
      }
      ElementsRoundTrip(element, chunks[1..], values[1..], rest);
      assert [values[0]] + values[1..] == values;
    }
  }

  /** A vector encoded as its count followed by element encodings decodes to
      those elements in order, leaving what followed untouched. */
  lemma VectorRoundTrip<T>(element: Parser<T>, chunks: seq<seq<byte>>, values: seq<T>, rest: seq<byte>)
    requires |chunks| < U32Limit
    requires EncodesElements(element, chunks, values, rest)
    ensures ParseVector(element, EncodeU32(|chunks|) + Flatten(chunks) + rest) == Ok(values, rest)
  {
    U32RoundTrip(|chunks|, Flatten(chunks) + rest);
    assert EncodeU32(|chunks|) + Flatten(chunks) + rest == EncodeU32(|chunks|) + (Flatten(chunks) + rest);
    ElementsRoundTrip(element, chunks, values, rest);
  }
}
