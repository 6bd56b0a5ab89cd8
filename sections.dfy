/** Section framing (section 5.5.2 of the WebAssembly Core Specification):
    an identifier byte, a `u32` byte length, then exactly that many body
    bytes, which a payload parser must consume entirely. The custom section
    (section 5.5.3) and the type section (section 5.5.4) are its two
    instances. */
module Sections {
  import opened Parsing
  import opened Values
  import opened Types

  /** `parse_section_raw`: matches the identifier byte, reads the length and
      takes that many bytes as the body, leaving everything after it. */
  function ParseSectionRaw(section: ModuleSection, s: seq<byte>): (r: Result<seq<byte>>)
    ensures r.Ok? <==>
      && |s| > 0
      && s[0] == section.Id()
      && ParseU32(s[1..]).Ok?
      && ParseU32(s[1..]).value <= |ParseU32(s[1..]).remaining|
    ensures r.Ok? ==>
      && |s| > 0
      && ParseU32(s[1..]).Ok?
      && var length := ParseU32(s[1..]).value;
         && length <= |ParseU32(s[1..]).remaining|
         && r.value == ParseU32(s[1..]).remaining[..length]
         && r.remaining == ParseU32(s[1..]).remaining[length..]
    ensures r.Ok? ==>
      && |s| > 0
      && |r.value| == ParseU32(s[1..]).value
      && var header := |s| - |r.value| - |r.remaining|;
         && 2 <= header <= 6
         && r.value == s[header..header + |r.value|]
         && r.remaining == s[header + |r.value|..]
  {
    var (_, afterId) :- Tag(section.Id(), s);
    var (length, afterLength) :- ParseU32(afterId);
    Take(length, afterLength)
  }

  /** `parse_section`: the body found by `ParseSectionRaw`, decoded by
      `payload`, which must leave none of it. The section's remainder is what
      follows the body, whatever the payload parser does. */
  function ParseSection<T>(section: ModuleSection, payload: Parser<T>, s: seq<byte>): (r: Result<T>)
    ensures r.Ok? <==>
      && ParseSectionRaw(section, s).Ok?
      && payload(ParseSectionRaw(section, s).value).Ok?
      && payload(ParseSectionRaw(section, s).value).remaining == []
    ensures r.Ok? ==>
      && ParseSectionRaw(section, s).Ok?
      && payload(ParseSectionRaw(section, s).value).value == r.value
      && r.remaining == ParseSectionRaw(section, s).remaining
  {
    MapParser(t => ParseSectionRaw(section, t), t => AllConsuming(payload, t), s)
  }

  /** The encoding of a section: its identifier, the body's length, the body. */
  function EncodeSection(section: ModuleSection, body: seq<byte>): seq<byte>
    requires |body| < U32Limit
  {
    [section.Id()] + EncodeU32(|body|) + body
  }

  lemma SectionRawRoundTrip(section: ModuleSection, body: seq<byte>, rest: seq<byte>)
    requires |body| < U32Limit
    ensures ParseSectionRaw(section, EncodeSection(section, body) + rest) == Ok(body, rest)
  {
    var afterId := EncodeU32(|body|) + (body + rest);
    ConcatAssoc([section.Id()] + EncodeU32(|body|), body, rest);
    ConcatAssoc([section.Id()], EncodeU32(|body|), body + rest);
    assert ([section.Id()] + afterId)[1..] == afterId;
    U32RoundTrip(|body|, body + rest);
    assert (body + rest)[..|body|] == body;
    assert (body + rest)[|body|..] == rest;
  }

  /** Framing is transparent: a section built from any body decodes to
      exactly what the payload parser makes of that body when it consumes all
      of it, fails otherwise, and leaves what followed the section untouched. */
  lemma SectionRoundTrip<T>(section: ModuleSection, payload: Parser<T>, body: seq<byte>, rest: seq<byte>)
    requires |body| < U32Limit
    ensures ParseSection(section, payload, EncodeSection(section, body) + rest) ==
      if payload(body).Ok? && payload(body).remaining == [] then Ok(payload(body).value, rest) else Failure
  {
    SectionRawRoundTrip(section, body, rest);
  }

  /** An input that does not start with the expected identifier fails,
      whatever the payload parser. */
  lemma WrongIdFails<T>(section: ModuleSection, payload: Parser<T>, s: seq<byte>)
    requires |s| == 0 || s[0] != section.Id()
    ensures ParseSection(section, payload, s) == Failure
  {
  }

  /** A declared length beyond the bytes that follow it fails. */
  lemma LengthTooLongFails<T>(section: ModuleSection, payload: Parser<T>, s: seq<byte>)
    requires |s| > 0 && s[0] == section.Id()
    requires ParseU32(s[1..]).Ok? && ParseU32(s[1..]).value > |ParseU32(s[1..]).remaining|
    ensures ParseSection(section, payload, s) == Failure
  {
  }

  /** A payload parser that succeeds but leaves bytes of the body unread
      fails the whole section. */
  lemma TrailingBytesFail<T>(section: ModuleSection, payload: Parser<T>, s: seq<byte>)
    requires ParseSectionRaw(section, s).Ok?
    requires payload(ParseSectionRaw(section, s).value).Ok?
    requires payload(ParseSectionRaw(section, s).value).remaining != []
    ensures ParseSection(section, payload, s) == Failure
  {
  }

  /** A zero-length section hands the payload parser the empty body. */
  lemma EmptyBody<T>(section: ModuleSection, payload: Parser<T>, rest: seq<byte>)
    ensures ParseSection(section, payload, [section.Id(), 0] + rest) ==
      if payload([]).Ok? && payload([]).remaining == [] then Ok(payload([]).value, rest) else Failure
  {
    assert EncodeSection(section, []) == [section.Id(), 0];
    SectionRoundTrip(section, payload, [], rest);
  }

  /** `parse_custom_content`: a name, then every remaining byte as contents. */
  function ParseCustomContent(s: seq<byte>): (r: Result<Custom>)
    ensures r.Ok? <==> ParseName(s).Ok?
    ensures r.Ok? ==>
      && r.remaining == []
      && ValidUtf8(r.value.name)
      && ParseU32(s).Ok?
      && ParseU32(s).value == |r.value.name|
      && ParseU32(s).remaining == r.value.name + r.value.contents
  {
    var (name, afterName) :- ParseName(s);
    var (contents, afterContents) := Rest(afterName).Extract();
    Ok(Custom.Custom(name, contents), afterContents)
  }

  /** `parse_custom_section`: section 0 holding a name and opaque contents.
      Only the name can make the body fail; the contents never do. */
  function ParseCustomSection(s: seq<byte>): (r: Result<Custom>)
    ensures r.Ok? <==>
      ParseSectionRaw(ModuleSection.Custom, s).Ok? && ParseName(ParseSectionRaw(ModuleSection.Custom, s).value).Ok?
    ensures r.Ok? ==>
      && ParseSectionRaw(ModuleSection.Custom, s).Ok?
      && ParseName(ParseSectionRaw(ModuleSection.Custom, s).value) == Ok(r.value.name, r.value.contents)
      && r.remaining == ParseSectionRaw(ModuleSection.Custom, s).remaining
  {
    ParseSection(ModuleSection.Custom, ParseCustomContent, s)
  }

  /** Encoding a name and contents as a custom section and parsing it gives
      back both, and the bytes that followed. */
  lemma CustomSectionRoundTrip(name: seq<byte>, contents: seq<byte>, rest: seq<byte>)
    requires |name| < U32Limit && ValidUtf8(name)
    requires |EncodeName(name) + contents| < U32Limit
    ensures ParseCustomSection(EncodeSection(ModuleSection.Custom, EncodeName(name) + contents) + rest)
         == Ok(Custom.Custom(name, contents), rest)
  {
    var body := EncodeName(name) + contents;
    NameRoundTrip(name, contents);
    SectionRoundTrip(ModuleSection.Custom, ParseCustomContent, body, rest);
  }

  /** A zero-length custom section has no name and fails. */
  lemma EmptyCustomSectionFails(rest: seq<byte>)
    ensures ParseCustomSection([0, 0] + rest) == Failure
  {
    EmptyBody(ModuleSection.Custom, ParseCustomContent, rest);
    NameNeedsInput();
  }

  /** `parse_type_section`: section 1 holding a vector of function types,
      each decoded by `parseFunctionType`. */
  function ParseTypeSection(parseFunctionType: Parser<FunctionType>, s: seq<byte>): (r: Result<seq<FunctionType>>)
    ensures r.Ok? ==>
      && ParseSectionRaw(ModuleSection.Type, s).Ok?
      && ParseU32(ParseSectionRaw(ModuleSection.Type, s).value).Ok?
      && |r.value| == ParseU32(ParseSectionRaw(ModuleSection.Type, s).value).value
      && r.remaining == ParseSectionRaw(ModuleSection.Type, s).remaining
  {
    ParseSection(ModuleSection.Type, t => ParseVector(parseFunctionType, t), s)
  }

  /** The body `[0x00]` (a count of zero) is an empty, valid type section. */
  lemma EmptyTypeSection(parseFunctionType: Parser<FunctionType>, rest: seq<byte>)
    ensures ParseTypeSection(parseFunctionType, [1, 1, 0] + rest) == Ok([], rest)
  {
    assert EncodeSection(ModuleSection.Type, [0]) == [1, 1, 0];
    OneByteU32(0, []);
    assert [0] == [0] + [];
    SectionRoundTrip(ModuleSection.Type, t => ParseVector(parseFunctionType, t), [0], rest);
  }

  /** A type section whose body is a count and that many function type
      encodings decodes to those function types, in order. */
  lemma TypeSectionRoundTrip(
    parseFunctionType: Parser<FunctionType>, chunks: seq<seq<byte>>, types: seq<FunctionType>, rest: seq<byte>)
    requires |chunks| < U32Limit
    requires |EncodeU32(|chunks|) + Flatten(chunks)| < U32Limit
    requires EncodesElements(parseFunctionType, chunks, types, [])
    ensures ParseTypeSection(parseFunctionType, EncodeSection(ModuleSection.Type, EncodeU32(|chunks|) + Flatten(chunks)) + rest)
         == Ok(types, rest)
  {
    var body := EncodeU32(|chunks|) + Flatten(chunks);
    VectorRoundTrip(parseFunctionType, chunks, types, []);
    assert body + [] == body;
    SectionRoundTrip(ModuleSection.Type, t => ParseVector(parseFunctionType, t), body, rest);
  }

  /** The body `[0x01, 0x60, 0x00, 0x00]`: one function type, here the one
      that `[0x60, 0x00, 0x00]` decodes to. */
  lemma SingleFunctionTypeSection(parseFunctionType: Parser<FunctionType>, rest: seq<byte>)
    requires parseFunctionType([0x60, 0x00, 0x00]) == Ok(FunctionType([], []), [])
    ensures ParseTypeSection(parseFunctionType, [0x01, 0x04, 0x01, 0x60, 0x00, 0x00] + rest)
         == Ok([FunctionType([], [])], rest)
  {
    var chunks: seq<seq<byte>> := [[0x60, 0x00, 0x00]];
    assert Flatten(chunks) == [0x60, 0x00, 0x00] by {
      assert Flatten(chunks[1..]) == [];
    }
    assert EncodesElements(parseFunctionType, chunks, [FunctionType([], [])], []) by {
      assert chunks[1..] == [];
      assert chunks[0] + Flatten(chunks[1..]) + [] == [0x60, 0x00, 0x00];
    }
    Pow2Monotonic(7, 32);
    assert Pow2(7) == 128;
    assert EncodeSection(ModuleSection.Type, EncodeU32(1) + Flatten(chunks)) == [0x01, 0x04, 0x01, 0x60, 0x00, 0x00];
    TypeSectionRoundTrip(parseFunctionType, chunks, [FunctionType([], [])], rest);
  }

  /** If function type `k` fails after `k` have decoded, with more than `k`
      declared, the type section fails. */
  lemma TypeSectionElementFails(parseFunctionType: Parser<FunctionType>, s: seq<byte>, k: nat)
    requires ParseSectionRaw(ModuleSection.Type, s).Ok?
    requires ParseU32(ParseSectionRaw(ModuleSection.Type, s).value).Ok?
    requires k < ParseU32(ParseSectionRaw(ModuleSection.Type, s).value).value
    requires ParseElements(k, parseFunctionType, ParseU32(ParseSectionRaw(ModuleSection.Type, s).value).remaining).Ok?
    requires parseFunctionType(
      ParseElements(k, parseFunctionType, ParseU32(ParseSectionRaw(ModuleSection.Type, s).value).remaining).remaining).Failure?
    ensures ParseTypeSection(parseFunctionType, s) == Failure
  {
    var counted := ParseU32(ParseSectionRaw(ModuleSection.Type, s).value);
    ElementFailureFails(k, counted.value, parseFunctionType, counted.remaining);
  }

  /** Bytes left in the body after the last declared function type fail the
      type section. */
  lemma TypeSectionTrailingFails(parseFunctionType: Parser<FunctionType>, s: seq<byte>)
    requires ParseSectionRaw(ModuleSection.Type, s).Ok?
    requires ParseVector(parseFunctionType, ParseSectionRaw(ModuleSection.Type, s).value).Ok?
    requires ParseVector(parseFunctionType, ParseSectionRaw(ModuleSection.Type, s).value).remaining != []
    ensures ParseTypeSection(parseFunctionType, s) == Failure
  {
    TrailingBytesFail(ModuleSection.Type, t => ParseVector(parseFunctionType, t), s);
  }

  /** With a function type decoder that consumes at least one byte, the
      declared count is smaller than the body: the count is bounded by the
      section length. */
  lemma TypeSectionCountBound(parseFunctionType: Parser<FunctionType>, s: seq<byte>)
    requires ConsumesPrefix(parseFunctionType)
    requires ParseTypeSection(parseFunctionType, s).Ok?
    ensures |ParseTypeSection(parseFunctionType, s).value| < |ParseSectionRaw(ModuleSection.Type, s).value|
  {
    var body := ParseSectionRaw(ModuleSection.Type, s).value;
    var counted := ParseU32(body);
    ElementsConsumption(counted.value, parseFunctionType, counted.remaining);
  }
}
