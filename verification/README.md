# A verified model of a nom-based bencode decoder

This project models `src/lib.rs`, a bencode decoder written with the nom
parser-combinator macros, as Dafny functions over byte sequences. It proves
what each grammar rule accepts, what it returns, and how the rules compose.

Bencode has four kinds of value:

- a byte string, `<length>:<bytes>`;
- an integer, `i<number>e`;
- a list, `l<values>e`;
- a dictionary with byte-string keys, `d<key value ...>e`.

The decoded tree is `Values.Bencode`, one constructor per variant of
`enum Bencode` (src/lib.rs:11-17).

## How the model reads the source

**Rules.** Each nom rule becomes one function from the input bytes to
`Option<(value, rest)>`. A success carries the value read and the unconsumed
input. `None` is any failure: nom's `Incomplete` and `Error` are one outcome
here.

| source rule | Dafny function |
|---|---|
| `digit` | `Decoder.DigitSpan` |
| `number` | `Decoder.ParseNumber` |
| `bytes` | `Decoder.ParseBytes` |
| `int` | `Decoder.ParseInt` |
| `list` | `Decoder.ParseList` |
| `dict` | `Decoder.ParseDict` |
| `decode` | `Decoder.Decode` |
| `many0!(decode)` | `Decoder.Many` |
| `pair!(bytes, decode)` | `Decoder.ParsePair` |
| `many0!(pair!(..))` | `Decoder.ManyPairs` |

**Integers** are mathematical integers.

**Byte-string lengths.** `take!(l)` receives `l as usize`. This is modelled
as `Decoder.UsizeCast`, truncation modulo 2^64. A negative length therefore
turns into a count of at least 2^63, which no buffer holds. The source has no
explicit check for negative lengths.

**Dictionaries.** `HashMap::from_iter` inserts the pairs in order, so a later
pair for the same key replaces an earlier one. This is modelled as
`Values.ToMap`.

**Grammar-level soundness and completeness.** For each rule:

- a `...Sound` lemma says that a success consumed exactly the lexeme the
  grammar describes;
- a `...OfEncoding` / `...OfDecodes` lemma says that such a lexeme is read
  back.

`Decoder.DecodesSeq` and `Decoder.DecodesPairs` state "these values, decoded
one after another" as relations, built from single calls of `Decode` and
`ParsePair`. That gives the repetitions a meaning independent of
`Many` and `ManyPairs` themselves.

**Round trip.** `Encoder.Encode` is a serialiser written for the proofs
only; the source has none. It writes canonical numbers and lengths, and a
dictionary's entries each once, in an arbitrary order rather than BEP 3's
sorted order. `Encoder.RoundTrip` proves that decoding
`Encode(v)` followed by any bytes `t` gives back `v` and exactly `t`.

**Unit tests.** The tests of src/lib.rs (lines 85-182) are lemmas in module
`Examples`. Further lemmas there show the edge cases the code implies.

### Where the decoder is more lenient than canonical bencode

The BitTorrent specification (BEP 3) defines canonical bencode. The model
follows the code, which accepts more than that canonical form.

- **A leading `-` on a length is not rejected by its own check.** The source
  has no such check.
  - `-0:` decodes to the empty byte string (`Examples.DecodeNegativeZeroLength`).
  - Any other negative length makes `take!` ask for at least 2^63 bytes. The
    rule therefore fails on any realistic input
    (`DecoderLemmas.NegativeLengthFails`). In a build with overflow checks,
    nom's size arithmetic can panic instead; see "Left out".
  - `DecoderLemmas.MinusPrefixIsEmptyBytes` shows that a `-`-prefixed input
    can only ever decode to the empty byte string.
- **Non-canonical numbers are accepted.** BEP 3 forbids leading zeros and
  negative zero in integers.
  - Leading zeros are accepted, on lengths and integers alike: `03:abc`
    decodes to `abc` (`DecoderLemmas.LeadingZerosIgnored`).
  - Negative zero is accepted: `i-0e` decodes to 0.
- **Dictionary keys are neither sorted nor unique.** BEP 3 requires keys in
  sorted order. The code accepts any order, and a repeated key keeps its
  last value.
- **Trailing input.** `decode` returns the input after the first value
  rather than rejecting it.
- **No failure reasons in the model.** nom's error kind and position are
  not kept. Every failure is `None`.
- **Trial in order, not lookahead.** `decode` tries bytes, int, list, dict in
  that order. This is equivalent to dispatching on the first byte
  (`DecoderLemmas.DecodeIsLookahead`).

## Model

| member | source | states |
|---|---|---|
| Decoder.DigitSpan | src/lib.rs:31 | `digit` takes the longest run of digits: everything it takes is a digit, and the byte after the run (if any) is not one |
| Decoder.ParseNumber | src/lib.rs:28-40 | `number` succeeds exactly when a digit follows an optional `-`; it consumes at least one byte and never stops inside a digit run |
| Decoder.UsizeCast | src/lib.rs:23 | the `as usize` cast keeps lengths in [0, 2^64) unchanged and turns every negative `i64` into a count of at least 2^63 |
| Decoder.ParseBytes | src/lib.rs:19-26 | `bytes` starts at a digit or `-`; it consumes its payload plus at least one more byte, and leaves a suffix of the input |
| Decoder.ParseInt | src/lib.rs:42-49 | `int` only succeeds on input starting with `i`, and leaves a proper suffix |
| Decoder.Decode | src/lib.rs:71-78 | `decode` consumes at least one byte; the variant it returns is a byte string iff the input starts with a digit or `-`, an integer iff `i`, a list iff `l`, a dict iff `d` |
| Decoder.Many | src/lib.rs:54 | the repetition of values yields the values read up to the first point where none decodes, and leaves a suffix of its input there |
| Decoder.ParseList | src/lib.rs:51-58 | `list` only succeeds on input starting with `l`, and leaves a proper suffix |
| Decoder.ParsePair | src/lib.rs:64 | `pair!(bytes, decode)` leaves a proper suffix of its input |
| Decoder.ManyPairs | src/lib.rs:63-65 | the repetition of pairs yields the pairs read up to the first point where none parses, and leaves a suffix of its input there |
| Decoder.ParseDict | src/lib.rs:60-69 | `dict` only succeeds on input starting with `d`, and leaves a proper suffix |
| Values.ToMap | src/lib.rs:67 | the map built from the pairs has exactly the keys that occur in them |
| Values.LastWriteWins | src/lib.rs:67 | the value stored for a key is the one of its last occurrence among the pairs |
| Values.ToMapFreshHead | src/lib.rs:67 | a first pair whose key never recurs survives into the map unchanged |
| Numerals.DigitsValue | src/lib.rs:33 | the decimal value `parse` gives a digit run is zero exactly when every digit is `0` |
| Numerals.LeadingZerosValue | src/lib.rs:33 | zeros in front of a digit run do not change its decimal value |
| Numerals.DigitsValueOfDecimal | src/lib.rs:33 | reading back the canonical decimal digits of `n` gives `n` |
| Numerals.NumeralOfInt | src/lib.rs:28-40 | the canonical writing of any integer is a number lexeme that denotes that integer |
| DecoderLemmas.DigitSpanOfDigits | src/lib.rs:31 | on a digit run followed by a non-digit, `digit` takes exactly the run |
| DecoderLemmas.NumberSound | src/lib.rs:28-40 | what `number` consumes is a number lexeme (`-`? digit+), and the value returned is that lexeme's value |
| DecoderLemmas.NumberOfNumeral | src/lib.rs:28-40 | conversely, a number lexeme followed by a non-digit reads as its value, leaving the rest |
| DecoderLemmas.LeadingZerosIgnored | src/lib.rs:28-40 | `number` reads any zeros followed by a digit run, with or without a `-`, as that run's value (negated after `-`), leaving what follows |
| DecoderLemmas.BytesOfEncoding | src/lib.rs:19-26 | a length lexeme, `:` and a payload of the (cast) length read back as that payload, verbatim, leaving whatever follows |
| DecoderLemmas.BytesSound | src/lib.rs:19-26 | conversely, every successful `bytes` consumed a length lexeme, `:` and a payload whose length is the cast value of the lexeme |
| DecoderLemmas.ShortPayloadFails | src/lib.rs:23 | a payload shorter than its announced length makes `bytes` fail |
| DecoderLemmas.MissingColonFails | src/lib.rs:22 | a length lexeme not followed by `:` makes `bytes` fail |
| DecoderLemmas.NegativeLengthFails | src/lib.rs:21-23 | a negative length (down to -2^63) makes `bytes` fail on every input shorter than 2^63 bytes |
| DecoderLemmas.IntSound | src/lib.rs:42-49 | every successful `int` consumed `i`, a number lexeme and `e`, and returns the lexeme's value |
| DecoderLemmas.IntOfEncoding | src/lib.rs:42-49 | conversely, `i`, a number lexeme, `e` read back as the number, leaving whatever follows |
| DecoderLemmas.BadTerminatorFails | src/lib.rs:46 | a number not followed by `e` makes `int` fail |
| DecoderLemmas.ManySound | src/lib.rs:54 | `many0!(decode)` returns values that decode one after another from its input, and stops where no further value decodes |
| DecoderLemmas.ManyOfDecodes | src/lib.rs:54 | conversely, values decoding one after another up to a point where nothing decodes are exactly what `many0!` returns |
| DecoderLemmas.ListSound | src/lib.rs:51-58 | a successful `list` consumed `l`, values decoding one after another in the returned order, and `e` |
| DecoderLemmas.ListOfDecodes | src/lib.rs:51-58 | conversely, `l`, values decoding one after another, `e` read back as the list of those values in order |
| DecoderLemmas.ManyPairsSound | src/lib.rs:63-65 | the repetition returns pairs that decode one after another and stops where no pair decodes |
| DecoderLemmas.ManyPairsOfDecodes | src/lib.rs:63-65 | conversely, pairs decoding one after another up to a point where no pair decodes are exactly what the repetition returns |
| DecoderLemmas.DictSound | src/lib.rs:60-69 | a successful `dict` consumed `d`, pairs decoding one after another, and `e`; its map is folded from those pairs in order |
| DecoderLemmas.DictOfDecodes | src/lib.rs:60-69 | conversely, `d`, decodable pairs, `e` read back as the map folded from those pairs |
| DecoderLemmas.EndIsNoPair | src/lib.rs:64-66 | the closing `e` never starts a pair, so the repetition stops there |
| DecoderLemmas.NonByteStringKeyFails | src/lib.rs:62-66 | after any run of well-formed pairs, a key position where no byte string parses and that is not the closing `e` makes `dict` fail |
| DecoderLemmas.DecodeSelectsInt | src/lib.rs:74 | when `int` succeeds, `decode` returns its integer |
| DecoderLemmas.DecodeSelectsList | src/lib.rs:75 | when `list` succeeds, `decode` returns its list |
| DecoderLemmas.DecodeSelectsDict | src/lib.rs:76 | when `dict` succeeds, `decode` returns its dict |
| DecoderLemmas.DecodeIsLookahead | src/lib.rs:71-78 | trying the alternatives in order equals dispatching on the first byte |
| DecoderLemmas.AlternativesExclusive | src/lib.rs:72-77 | at most one alternative of `decode` succeeds on any input |
| DecoderLemmas.MinusPrefixIsEmptyBytes | src/lib.rs:19-40 | an input shorter than 2^63 bytes that starts with `-` can only decode to the empty byte string, and then its length reads as 0 |
| Encoder.BytesRoundTrip | src/lib.rs:19-26 | a serialised byte string (up to `i64::MAX` long) reads back as itself, leaving whatever follows |
| Encoder.RoundTrip | src/lib.rs:71-78 | decoding the serialisation of any representable value followed by any bytes gives back the value and exactly those bytes |
| Encoder.ListValueRoundTrip | src/lib.rs:75 | the round trip for a list value |
| Encoder.DictValueRoundTrip | src/lib.rs:76 | the round trip for a dict value; the decoded map is the original one |
| Encoder.ListRoundTrip | src/lib.rs:54 | serialised elements decode one after another as those elements |
| Encoder.PairsRoundTrip | src/lib.rs:63-65 | serialised entries decode one after another as those entries |
| Examples.DecodeBytesSpam | src/lib.rs:85-93 | `4:spam` decodes to the byte string `spam` |
| Examples.DecodeZeroBytes | src/lib.rs:95-103 | `0:` decodes to the empty byte string |
| Examples.DecodePositiveInt | src/lib.rs:105-113 | `i123e` decodes to 123 |
| Examples.DecodeNegativeInt | src/lib.rs:115-123 | `i-123e` decodes to -123 |
| Examples.DecodeZeroInt | src/lib.rs:125-133 | `i0e` decodes to 0 |
| Examples.DecodeList | src/lib.rs:135-147 | `li12345ei0ee` decodes to the two-element list [12345, 0] |
| Examples.DecodeEmptyList | src/lib.rs:149-157 | `le` decodes to the empty list |
| Examples.DecodeDict | src/lib.rs:159-172 | `d5:counti12345ee` decodes to the one-entry dict `count` → 12345 |
| Examples.DecodeEmptyDict | src/lib.rs:174-182 | `de` decodes to the empty dict |
| Examples.DecodeDuplicateKey | src/lib.rs:67 | `d1:ai1e1:ai2ee` decodes to the dict `a` → 2: the last write wins |
| Examples.RepeatedKeyDict | src/lib.rs:60-69 | for any key and integers a, b, a dict holding `k` → a then `k` → b decodes to `k` → b |
| Examples.DecodeNested | src/lib.rs:71-78 | `d4:listli1ei2eee` decodes to the dict `list` → [1, 2] |
| Examples.DecodeEmptyInputFails | src/lib.rs:71-78 | the empty input does not decode |
| Examples.DecodeUnknownPrefixFails | src/lib.rs:72-77 | no input starting with `x` or `e` decodes, whatever follows the first byte |
| Examples.DecodeTruncatedBytesFails | src/lib.rs:23 | the truncated byte string `4:sp` does not decode |
| Examples.DecodeNegativeLengthFails | src/lib.rs:21-23 | `-5:hello` does not decode |
| Examples.DecodeUnterminatedIntFails | src/lib.rs:46 | `i12` does not decode |
| Examples.DecodeUnterminatedListFails | src/lib.rs:55 | `l` does not decode |
| Examples.DecodeMissingValueFails | src/lib.rs:63-66 | `d5:count`, a key without its value, does not decode |
| Examples.DecodeIntegerKeyFails | src/lib.rs:64 | `di1ei2ee`, a dict with an integer key, does not decode |
| Examples.DecodeNegativeZeroLength | src/lib.rs:21-23 | `-0:` decodes to the empty byte string |
| Examples.DecodeNegativeZeroInt | src/lib.rs:30-36 | `i-0e` decodes to 0 |
| Examples.DecodeLeadingZeroLength | src/lib.rs:31-33 | `03:abc` decodes to `abc` |
| Examples.DecodeLeavesTrailingInput | src/lib.rs:71-78 | `i1exyz` decodes to 1, returning `xyz` unconsumed |

Except for `Examples.DecodeLeavesTrailingInput`, which is stated for the
trailing bytes `xyz`, every successful decoding in `Examples` holds for any
input that follows the value, and that input is returned untouched.

## Left out

- The nom machinery itself (`IResult`, `chain!`, `alt!`, `many0!`, `tag!`,
  `take!` as combinators). Only their effect on these rules is modelled.
- The distinction between nom's `Incomplete` and `Error` results. Both are
  `None`. Because the first byte determines which alternative can succeed,
  and a value is never `Incomplete` at a closing `e`, the distinction
  changes no outcome of `list`, `dict` or `decode`.
- Decoder.Many: yields the values read so far, with the remaining input,
  where nom 2.x's `many0!` reports `Incomplete` because its child parser
  did, for example on `i12` or `4:sp`. `list` fails in both cases, so the
  difference is not observable through `list` or `decode`.
- Decoder.ManyPairs: the same holds for the repetition of pairs. `dict`
  fails in both cases.
- `many0!`'s guard against a parser that succeeds without consuming input.
  Every rule here consumes at least one byte on success, so that guard
  cannot fire.
- DecoderLemmas.NegativeLengthFails: states the outcome of a build without
  overflow checks. A short `take!` inside `chain!` reports the size it needs
  as the bytes consumed so far plus `l as usize`. For a negative `l` that
  `usize` sum overflows once the consumed bytes reach `|l|`, as on `-1:`,
  `-2:` or `-01:`, and more often inside lists and dicts. With overflow
  checks on (debug builds, `cargo test`), the source panics there. Without
  them the sum wraps and the rule fails, which is what the model says.
- Decoder.UsizeCast: assumes a 64-bit `usize`. On a 32-bit target
  `l as usize` truncates modulo 2^32 instead, so there `4294967297:a` would
  read as the byte string `a`.
- Decoder.ParseNumber: the value is a mathematical integer. The source's
  `parse::<i64>().unwrap()` panics on a digit run that does not fit in
  `i64`, and that panic is not modelled.
- `i64::MIN` as a value. Its digit run overflows before negation, which is
  the same panic.
- Encoder.RoundTrip: requires `Representable(v)`. This excludes exactly the
  values whose decoding would reach that panic: byte strings longer than
  `i64::MAX`, and integers outside `[-i64::MAX, i64::MAX]`.
- The behaviour of nom 1.x's `digit` on an empty run. No manifest fixes the
  nom version. The model takes the behaviour of later versions, where
  `digit` fails on an empty run and so does the rule. With nom 1.x an empty
  run would reach `parse` and panic.
- `HashMap` iteration order and hashing. A dict is a Dafny `map`, which has
  no order. The serialiser writes entries in an arbitrary order
  (`Values.Entries`), and the round trip holds for every such order.
- The source has no encoder. `Encoder.Encode` is a proof device only.
- I/O, `Debug`/`Clone` derivations, the `#[cfg(test)]` module as Rust code (its cases are
  restated in `Examples`), and stack depth on deeply nested input. Recursion depth is unbounded in the model.
