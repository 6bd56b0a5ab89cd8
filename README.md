# Section framing of a WebAssembly binary parser

A model of the section parsers of the `wasm-ast` crate (`src/parser/sections.rs`).
A section of a WebAssembly binary module is one identifier byte, a LEB128 `u32`
byte length, and exactly that many body bytes. A payload parser decodes the body
and must consume all of it (section 5.5.2 of the WebAssembly Core Specification).
There are two instances:

- the custom section (id 0, section 5.5.3): a name followed by opaque contents;
- the type section (id 1, section 5.5.4): a vector of function types.

Every parser is a pure function from a byte sequence to `Result<T>`. A result is
either `Ok(value, remaining)` or `Failure`.

Files:

- `parsing.dfy`: bytes, `Result`, `Parser`, and what the `nom` combinators used
  here do to a byte sequence (`Tag`, `Take`, `Rest`, `AllConsuming`, `MapParser`).
- `values.dfy`: the primitive decoders that the sections call.
  - `ParseU32` is unsigned LEB128 limited to 32 bits, following the grammar of
    section 5.2.2: at most five bytes, and the fifth byte is below 16.
  - `ParseName` is a `u32` length, then that many bytes, which must be UTF-8.
  - `ParseVector` is a `u32` count, then that many elements.
  - Each has a canonical encoder, which the round-trip lemmas use.
- `types.dfy`: the section identifiers (`ModuleSection.Id`, 0 to 12 as section
  5.5.2 lists them) and the `Custom` and `FunctionType` records.
- `sections.dfy`: the core. It holds `ParseSectionRaw`, `ParseSection`,
  `ParseCustomContent`, `ParseCustomSection`, `ParseTypeSection`, and the
  framing properties.

`parse_function_type` lives in a file that is not part of this model. It is the
parameter `parseFunctionType` of `ParseTypeSection`. Lemmas that need something
from it say so in their `requires`: for example, that it consumes a non-empty
prefix (`ConsumesPrefix`), or what it decodes from a given chunk.

`parse_u32` reads every section length, name length and vector count, so all of
them are below 2^32.

## Model

| member | source | states |
|---|---|---|
| `Parsing.Tag` | src/parser/sections.rs:49 | succeeds iff the input starts with the given byte; it returns that byte and drops exactly one byte from the front |
| `Parsing.Take` | src/parser/sections.rs:52 | succeeds iff at least n bytes are available; it returns n bytes, and they followed by the remainder make up the input |
| `Parsing.Rest` | src/parser/sections.rs:18 | never fails and returns the whole input, leaving nothing |
| `Parsing.AllConsuming` | src/parser/sections.rs:40 | succeeds iff the inner parser succeeds and leaves nothing; the value is the inner parser's value |
| `Parsing.MapParser` | src/parser/sections.rs:40 | succeeds iff the first parser succeeds and the second succeeds on the bytes the first produced; the value is the second's, and the remainder is the first's |
| `Types.ModuleSection.Id` | src/parser/sections.rs:49 | every section identifier is one of the bytes 0 to 12 |
| `Types.IdInjective` | src/parser/sections.rs:49 | no two section kinds share an identifier byte |
| `Values.ParseUnsigned` | src/parser/sections.rs:50 | a decoded uN is below 2^N; it consumes 1 to ceil(N/7) bytes from the front and leaves the rest as it was |
| `Values.ParseU32` | src/parser/sections.rs:50 | a decoded length is below 2^32, takes 1 to 5 bytes, and the remainder is a suffix of the input |
| `Values.U32RoundTrip` | src/parser/sections.rs:50 | decoding the LEB128 encoding of any u32 gives it back and leaves the following bytes untouched |
| `Values.OneByteU32` | src/parser/sections.rs:50 | a byte below 128 is a complete length on its own, and the rest of the input is left over |
| `Values.EncodeU32Length` | src/parser/sections.rs:50 | every u32 encodes in 1 to 5 bytes |
| `Values.ParseName` | src/parser/sections.rs:18 | a decoded name is UTF-8; its u32 prefix equals its length; the name's bytes directly follow the prefix, and the remainder follows them |
| `Values.AsciiIsUtf8` | src/parser/sections.rs:18 | every sequence of bytes below 0x80 is UTF-8, so it is accepted as a name |
| `Values.Utf8ExcludedBytes` | src/parser/sections.rs:18 | a name accepted as UTF-8 never contains the bytes 0xC0, 0xC1 or 0xF5 to 0xFF |
| `Values.NameRoundTrip` | src/parser/sections.rs:18 | a UTF-8 name decodes from its length-prefixed encoding, with what followed left over |
| `Values.NameNeedsInput` | src/parser/sections.rs:18 | no name decodes from empty input |
| `Values.ParseElements` | src/parser/sections.rs:27 | a successful run of `count` elements yields exactly `count` values |
| `Values.ParseVector` | src/parser/sections.rs:27 | a decoded vector has as many elements as its u32 count prefix says |
| `Values.ElementsSplit` | src/parser/sections.rs:27 | parsing a+b elements is parsing a, then b more from where they stopped, with the values concatenated in input order |
| `Values.ElementFailureFails` | src/parser/sections.rs:27 | if element k fails after k elements succeed, and more than k are declared, the whole vector fails |
| `Values.ElementsConsumption` | src/parser/sections.rs:27 | with an element parser that always consumes at least one byte, n elements consume at least n bytes and leave a suffix |
| `Values.ElementsRoundTrip` | src/parser/sections.rs:27 | element encodings laid end to end decode to their values, in order, with the rest untouched |
| `Values.VectorRoundTrip` | src/parser/sections.rs:27 | a count followed by that many element encodings decodes to those elements, in order |
| `Sections.ParseSectionRaw` | src/parser/sections.rs:47-54 | succeeds iff the first byte is the section id, a u32 length follows, and at least that many bytes come after it; the body is exactly the `length` bytes right after the LEB128 prefix that `ParseU32` read, and the remainder is everything after them; the header is 2 to 6 bytes; and the input is header + body + remainder |
| `Sections.ParseSection` | src/parser/sections.rs:33-41 | succeeds iff the framing succeeds and the payload parser succeeds on the body leaving nothing; the value is the payload's, and the remainder is what follows the body |
| `Sections.SectionRawRoundTrip` | src/parser/sections.rs:47-54 | id + LEB128(length of body) + body + rest gives back exactly body, with rest as the remainder |
| `Sections.SectionRoundTrip` | src/parser/sections.rs:40 | for any payload parser, an encoded section gives the payload's value on the body when it consumes the whole body, fails otherwise, and returns the bytes that followed |
| `Sections.WrongIdFails` | src/parser/sections.rs:49 | empty input, or a first byte other than the expected id, fails for every payload parser |
| `Sections.LengthTooLongFails` | src/parser/sections.rs:50-52 | a declared length larger than the bytes after the length prefix fails |
| `Sections.TrailingBytesFail` | src/parser/sections.rs:40 | a payload parser that leaves body bytes unread fails the section |
| `Sections.EmptyBody` | src/parser/sections.rs:40-52 | a zero-length section gives exactly the payload parser's outcome on the empty body |
| `Sections.ParseCustomContent` | src/parser/sections.rs:17-21 | succeeds iff the name decodes; the body is then the length prefix, then the name, then the contents verbatim, and nothing remains |
| `Sections.ParseCustomSection` | src/parser/sections.rs:12-14 | succeeds iff the section frame is valid and its body starts with a name; the name and contents are what the name decoder splits the body into; the remainder follows the section |
| `Sections.CustomSectionRoundTrip` | src/parser/sections.rs:12-21 | 0x00, LEB128(length of body), LEB128(length of name), name, contents, rest decodes to the original name and contents, with rest as the remainder |
| `Sections.EmptyCustomSectionFails` | src/parser/sections.rs:12-21 | a zero-length custom section fails, because no name can be decoded |
| `Sections.ParseTypeSection` | src/parser/sections.rs:26-28 | a decoded type section has exactly as many function types as the count at the start of its body, and the remainder follows the section |
| `Sections.EmptyTypeSection` | src/parser/sections.rs:26-28 | the section 0x01 0x01 0x00 decodes to an empty sequence, whatever follows |
| `Sections.TypeSectionRoundTrip` | src/parser/sections.rs:26-28 | a type section whose body is a count and that many function type encodings decodes to those types in input order |
| `Sections.SingleFunctionTypeSection` | src/parser/sections.rs:26-28 | the body 0x01 0x60 0x00 0x00 gives a one-element sequence holding the empty function type, if the function type decoder decodes 0x60 0x00 0x00 to it |
| `Sections.TypeSectionElementFails` | src/parser/sections.rs:27 | if a function type fails to decode before the declared count is reached, the type section fails |
| `Sections.TypeSectionTrailingFails` | src/parser/sections.rs:26-41 | bytes left in the body after the declared function types fail the section |
| `Sections.TypeSectionCountBound` | src/parser/sections.rs:26-28 | with a function type decoder that consumes at least one byte, the number of types is smaller than the section's length |

## Left out

- `src/parser/errors.rs` is not part of this model. It maps every combinator error to the single kind `InvalidBinary`, and its text-format variant belongs to an optional front end. The model has one `Failure` outcome.
- The combinators' error positions and diagnostics are not modelled, only which inputs they accept and what they return.
- `parse_section` and `parse_section_raw` return closures. The model takes the section id, the payload parser and the input as arguments of one function, which gives the same results.
- `parse_u32`, `parse_name`, `parse_vector` and `ModuleSection` are modelled from sections 5.2.2, 5.2.4, 5.1.3 and 5.5.2 of the WebAssembly Core Specification rather than from their Rust code. UTF-8 validity is the well-formedness table of the Unicode Standard.
- `parse_function_type` is a parameter of `ParseTypeSection`. The internal structure of function types (value types, the 0x60 prefix) is not decoded.
- Copying the contents into an owned `Vec` and borrowing the input are not modelled. In the model both are just sequence values.
