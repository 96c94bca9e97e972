/** The unit tests of src/lib.rs, and the edge cases the grammar implies, as
    facts about the model. Each successful decoding except
    `DecodeLeavesTrailingInput` (stated for `xyz`) holds for any input that
    follows the value, which the decoder hands back untouched.

    The proofs keep literal text and the decoder apart: a `...Text` or
    `...Pieces` lemma splits a literal into the serialisations of its parts,
    and the decoding itself is obtained from the round trip or from the
    lemmas about each rule, stated for arbitrary arguments. */
module Examples {
  import opened Wrappers
  import opened Values
  import opened Seqs
  import opened Numerals
  import opened Decoder
  import opened DecoderLemmas
  import opened Encoder

  /** ASCII text as bytes (characters are taken modulo 256). */
  function Str(s: string): (bs: seq<byte>)
  {
    seq(|s|, i requires 0 <= i < |s| => (s[i] as int % 0x100) as byte)
  }

  // ---------------------------------------------------------------------------
  // Serialisations of small containers, for arbitrary elements

  lemma EncodeTwoElements(a: Bencode, b: Bencode)
    ensures Encode(List([a, b])) == [LowerL] + (Encode(a) + Encode(b)) + [LowerE]
  {
    assert [a, b][1..] == [b];
    assert [b][1..] == [];
    assert EncodeList([b]) == Encode(b) + [];
    assert EncodeList([a, b]) == Encode(a) + Encode(b);
  }

  lemma TwoElementsRepresentable(a: Bencode, b: Bencode)
    requires Representable(a) && Representable(b)
    ensures Representable(List([a, b]))
  {
  }

  lemma EntriesSingleton(k: seq<byte>, v: Bencode)
    ensures Entries(map[k := v]) == [(k, v)]
  {
    var m := map[k := v];
    assert m - {k} == map[];
  }

  lemma EncodeOneEntry(k: seq<byte>, x: Bencode)
    ensures Encode(Dict(map[k := x])) == [LowerD] + (EncodeBytes(k) + Encode(x)) + [LowerE]
  {
    var v := Dict(map[k := x]);
    EntriesSingleton(k, x);
    var ps := [(k, x)];
    assert ps[1..] == [];
    assert EncodePairs(ps, v) == EncodeBytes(k) + Encode(x) + [];
  }

  lemma OneEntryRepresentable(k: seq<byte>, x: Bencode)
    requires |k| <= I64Max && Representable(x)
    ensures Representable(Dict(map[k := x]))
  {
  }

  // ---------------------------------------------------------------------------
  // The unit tests

  lemma DecodeBytesSpam(rest: seq<byte>)
    ensures Decode(Str("4:spam") + rest) == Some((Bytes(Str("spam")), rest))
  {
    assert Encode(Bytes(Str("spam"))) == Str("4:spam");
    RoundTrip(Bytes(Str("spam")), rest);
  }

  lemma DecodeZeroBytes(rest: seq<byte>)
    ensures Decode(Str("0:") + rest) == Some((Bytes([]), rest))
  {
    assert Encode(Bytes([])) == Str("0:");
    RoundTrip(Bytes([]), rest);
  }

  lemma DecodePositiveInt(rest: seq<byte>)
    ensures Decode(Str("i123e") + rest) == Some((Int(123), rest))
  {
    assert Encode(Int(123)) == Str("i123e");
    RoundTrip(Int(123), rest);
  }

  lemma DecodeNegativeInt(rest: seq<byte>)
    ensures Decode(Str("i-123e") + rest) == Some((Int(-123), rest))
  {
    assert Encode(Int(-123)) == Str("i-123e");
    RoundTrip(Int(-123), rest);
  }

  lemma DecodeZeroInt(rest: seq<byte>)
    ensures Decode(Str("i0e") + rest) == Some((Int(0), rest))
  {
    assert Encode(Int(0)) == Str("i0e");
    RoundTrip(Int(0), rest);
  }

  lemma Digits12345()
    ensures DecimalDigits(12345) == Str("12345")
  {
    assert DecimalDigits(12) == Str("12");
    assert DecimalDigits(123) == Str("123");
    assert DecimalDigits(1234) == Str("1234");
  }

  lemma Int12345Pieces()
    ensures Str("i12345e") == [LowerI] + Str("12345") + [LowerE]
  {
  }

  lemma EncodeInt12345()
    ensures Encode(Int(12345)) == Str("i12345e")
  {
    Digits12345();
    Int12345Pieces();
  }

  lemma TwoIntsPieces()
    ensures Str("li12345ei0ee") == [LowerL] + (Str("i12345e") + Str("i0e")) + [LowerE]
  {
  }

  lemma EncodeTwoInts(x: Bencode)
    requires x == List([Int(12345), Int(0)])
    ensures Encode(x) == Str("li12345ei0ee")
  {
    EncodeTwoElements(Int(12345), Int(0));
    EncodeInt12345();
    assert Encode(Int(0)) == Str("i0e");
    TwoIntsPieces();
  }

  /** The list test: two elements, the first being 12345. */
  lemma DecodeList(rest: seq<byte>)
    ensures Decode(Str("li12345ei0ee") + rest) == Some((List([Int(12345), Int(0)]), rest))
  {
    EncodeTwoInts(List([Int(12345), Int(0)]));
    TwoElementsRepresentable(Int(12345), Int(0));
    RoundTrip(List([Int(12345), Int(0)]), rest);
  }

  lemma DecodeEmptyList(rest: seq<byte>)
    ensures Decode(Str("le") + rest) == Some((List([]), rest))
  {
    assert Encode(List([])) == Str("le");
    RoundTrip(List([]), rest);
  }

  lemma CountKeyText()
    ensures EncodeBytes(Str("count")) == Str("5:count")
  {
  }

  lemma CountDictPieces()
    ensures Str("d5:counti12345ee") == [LowerD] + (Str("5:count") + Str("i12345e")) + [LowerE]
  {
  }

  lemma EncodeCountDict(k: seq<byte>, x: Bencode)
    requires k == Str("count") && x == Int(12345)
    ensures Encode(Dict(map[k := x])) == Str("d5:counti12345ee")
  {
    EncodeOneEntry(k, x);
    EncodeInt12345();
    CountKeyText();
    CountDictPieces();
  }

  /** The dict test: one entry, `count`, holding 12345. */
  lemma DecodeDict(rest: seq<byte>)
    ensures Decode(Str("d5:counti12345ee") + rest)
         == Some((Dict(map[Str("count") := Int(12345)]), rest))
  {
    EncodeCountDict(Str("count"), Int(12345));
    OneEntryRepresentable(Str("count"), Int(12345));
    RoundTrip(Dict(map[Str("count") := Int(12345)]), rest);
  }

  lemma DecodeEmptyDict(rest: seq<byte>)
    ensures Decode(Str("de") + rest) == Some((Dict(map[]), rest))
  {
    var m: map<seq<byte>, Bencode> := map[];
    assert Entries(m) == [];
    assert Encode(Dict(m)) == Str("de");
    RoundTrip(Dict(m), rest);
  }

  // ---------------------------------------------------------------------------
  // A repeated key

  /** A serialised key and value read as one dictionary entry. */
  lemma EntryOfEncoding(k: seq<byte>, x: Bencode, u: seq<byte>)
    requires |k| <= I64Max && Representable(x)
    ensures ParsePair(EncodeBytes(k) + (Encode(x) + u)) == Some(((k, x), u))
  {
    BytesRoundTrip(k, Encode(x) + u);
    RoundTrip(x, u);
    PairOf(EncodeBytes(k) + (Encode(x) + u), k, Encode(x) + u, x, u);
  }

  /** Two consecutive pairs. */
  lemma TwoPairs(s: seq<byte>, p: (seq<byte>, Bencode), mid: seq<byte>, q: (seq<byte>, Bencode), r: seq<byte>)
    requires ParsePair(s) == Some((p, mid)) && ParsePair(mid) == Some((q, r))
    ensures DecodesPairs(s, [p, q], r)
  {
    DecodesPairsCons(mid, q, r, [], r);
    DecodesPairsCons(s, p, mid, [q] + [], r);
    PairList(p, q);
  }

  lemma ToMapRepeatedKey(k: seq<byte>, x: Bencode, y: Bencode)
    ensures ToMap([(k, x), (k, y)]) == map[k := y]
  {
    var ps := [(k, x), (k, y)];
    assert ps[..1] == [(k, x)] && ps[..1][..0] == [];
  }

  /** A dictionary holding two entries for the same key keeps the second. */
  lemma RepeatedKeyDict(k: seq<byte>, a: int, b: int, rest: seq<byte>)
    requires |k| <= I64Max && -I64Max <= a <= I64Max && -I64Max <= b <= I64Max
    ensures Decode([LowerD] + (EncodeBytes(k) + (Encode(Int(a)) + (EncodeBytes(k) + (Encode(Int(b)) + ([LowerE] + rest))))))
         == Some((Dict(map[k := Int(b)]), rest))
  {
    var u := [LowerE] + rest;
    var second := EncodeBytes(k) + (Encode(Int(b)) + u);
    var body := EncodeBytes(k) + (Encode(Int(a)) + second);
    EntryOfEncoding(k, Int(b), u);
    EntryOfEncoding(k, Int(a), second);
    TwoPairs(body, (k, Int(a)), second, (k, Int(b)), u);
    DictOfDecodes(body, [(k, Int(a)), (k, Int(b))], rest);
    ToMapRepeatedKey(k, Int(a), Int(b));
    DecodeSelectsDict([LowerD] + body, map[k := Int(b)], rest);
  }

  lemma RepeatedKeyPieces()
    ensures Str("d1:ai1e1:ai2ee") == [LowerD] + Str("1:a") + Str("i1e") + Str("1:a") + Str("i2e") + [LowerE]
  {
  }

  lemma RepeatedKeyText(rest: seq<byte>)
    ensures Str("d1:ai1e1:ai2ee") + rest
         == [LowerD] + (EncodeBytes(Str("a")) + (Encode(Int(1)) + (EncodeBytes(Str("a")) + (Encode(Int(2)) + ([LowerE] + rest)))))
  {
    assert EncodeBytes(Str("a")) == Str("1:a");
    assert Encode(Int(1)) == Str("i1e") && Encode(Int(2)) == Str("i2e");
    RepeatedKeyPieces();
  }

  /** A later entry for the same key replaces the earlier one. */
  lemma DecodeDuplicateKey(rest: seq<byte>)
    ensures Decode(Str("d1:ai1e1:ai2ee") + rest) == Some((Dict(map[Str("a") := Int(2)]), rest))
  {
    RepeatedKeyDict(Str("a"), 1, 2, rest);
    RepeatedKeyText(rest);
  }

  // ---------------------------------------------------------------------------
  // Nesting

  lemma NestedPieces()
    ensures Str("li1ei2ee") == [LowerL] + (Str("i1e") + Str("i2e")) + [LowerE]
    ensures Str("d4:listli1ei2eee") == [LowerD] + (Str("4:list") + Str("li1ei2ee")) + [LowerE]
  {
  }

  lemma ListKeyText()
    ensures EncodeBytes(Str("list")) == Str("4:list")
  {
  }

  lemma EncodeOneTwo(x: Bencode)
    requires x == List([Int(1), Int(2)])
    ensures Encode(x) == Str("li1ei2ee")
  {
    EncodeTwoElements(Int(1), Int(2));
    assert Encode(Int(1)) == Str("i1e") && Encode(Int(2)) == Str("i2e");
    NestedPieces();
  }

  lemma EncodeNested(k: seq<byte>, x: Bencode)
    requires k == Str("list") && x == List([Int(1), Int(2)])
    ensures Encode(Dict(map[k := x])) == Str("d4:listli1ei2eee")
  {
    EncodeOneEntry(k, x);
    EncodeOneTwo(x);
    ListKeyText();
    NestedPieces();
  }

  /** A dict holding a list. */
  lemma DecodeNested(rest: seq<byte>)
    ensures Decode(Str("d4:listli1ei2eee") + rest)
         == Some((Dict(map[Str("list") := List([Int(1), Int(2)])]), rest))
  {
    EncodeNested(Str("list"), List([Int(1), Int(2)]));
    TwoElementsRepresentable(Int(1), Int(2));
    OneEntryRepresentable(Str("list"), List([Int(1), Int(2)]));
    RoundTrip(Dict(map[Str("list") := List([Int(1), Int(2)])]), rest);
  }

  // ---------------------------------------------------------------------------
  // Inputs the decoder rejects

  lemma DecodeEmptyInputFails()
    ensures Decode([]).None?
  {
  }

  /** No rule starts with `x` or with `e`, whatever follows. */
  lemma DecodeUnknownPrefixFails(rest: seq<byte>)
    ensures Decode(Str("x") + rest).None? && Decode(Str("e") + rest).None?
  {
    var x := Str("x") + rest;
    assert x[0] == 0x78;
    assert Decode(x).None?;
    var e := Str("e") + rest;
    assert e[0] == LowerE;
  }

  /** A payload shorter than its announced length. */
  lemma DecodeTruncatedBytesFails()
    ensures Decode(Str("4:sp")).None?
  {
    assert IsNumeral(Str("4")) && NumeralValue(Str("4")) == 4;
    assert Str("4:sp") == Str("4") + [Colon] + Str("sp");
    ShortPayloadFails(Str("4"), Str("sp"));
  }

  /** A negative length other than zero. */
  lemma DecodeNegativeLengthFails()
    ensures Decode(Str("-5:hello")).None?
  {
    var s := Str("-5:hello");
    var t := Str("-5");
    assert IsNumeral(t) && t[1..] == [0x35] && NumeralValue(t) == -5;
    assert s == t + Str(":hello");
    NumberOfNumeral(t, Str(":hello"));
    NegativeLengthFails(s);
  }

  lemma DecodeUnterminatedIntFails()
    ensures Decode(Str("i12")).None?
  {
    assert Numeral(12) == Str("12");
    NumeralOfInt(12);
    assert Str("i12") == [LowerI] + Str("12") + [];
    BadTerminatorFails(Str("12"), []);
  }

  lemma DecodeUnterminatedListFails()
    ensures Decode(Str("l")).None?
  {
    var s := Str("l");
    assert s == [LowerL] && s[1..] == [];
    assert Many([]) == ([], []);
    assert ParseList(s).None?;
  }

  /** A key whose value is missing ends the dictionary body, and then the
      closing `e` is missing. */
  lemma DecodeMissingValueFails()
    ensures Decode(Str("d5:count")).None?
  {
    var t := Numeral(5);
    NumeralOfInt(5);
    var body := t + [Colon] + Str("count") + [];
    BytesOfEncoding(t, Str("count"), []);
    assert ParsePair(body).None?;
    assert ManyPairs(body) == ([], body);
    assert ParseDict([LowerD] + body).None? by {
      DropHead(LowerD, body);
    }
    assert Str("d5:count") == [LowerD] + body;
  }

  /** A dictionary key must be a byte string. */
  lemma DecodeIntegerKeyFails()
    ensures Decode(Str("di1ei2ee")).None?
  {
    var s := Str("di1ei2ee");
    assert s == [LowerD] + s[1..];
    assert s[1..][0] == LowerI;
    NonByteStringKeyFails(s[1..], [], s[1..]);
  }

  // ---------------------------------------------------------------------------
  // Lexical leniency

  /** `take!` receives the length cast to an unsigned word, so `-0` is an
      acceptable length. */
  lemma DecodeNegativeZeroLength(rest: seq<byte>)
    ensures Decode(Str("-0:") + rest) == Some((Bytes([]), rest))
  {
    var t := Str("-0");
    assert IsNumeral(t) && t[1..] == [Zero] && NumeralValue(t) == 0;
    assert Str("-0:") + rest == t + [Colon] + [] + rest;
    BytesOfEncoding(t, [], rest);
    DecodeSelectsBytes(Str("-0:") + rest, [], rest);
  }

  lemma DecodeNegativeZeroInt(rest: seq<byte>)
    ensures Decode(Str("i-0e") + rest) == Some((Int(0), rest))
  {
    var t := Str("-0");
    assert IsNumeral(t) && t[1..] == [Zero] && NumeralValue(t) == 0;
    assert Str("i-0e") + rest == [LowerI] + t + [LowerE] + rest;
    IntOfEncoding(t, rest);
    DecodeSelectsInt(Str("i-0e") + rest, 0, rest);
  }

  /** Leading zeros in a length are accepted. */
  lemma DecodeLeadingZeroLength(rest: seq<byte>)
    ensures Decode(Str("03:abc") + rest) == Some((Bytes(Str("abc")), rest))
  {
    var t := Str("03");
    assert t == [Zero, 0x33];
    assert t[..1] == [Zero] && t[..1][..0] == [];
    assert DigitsValue(t[..1]) == 0;
    assert IsNumeral(t) && NumeralValue(t) == 3;
    assert Str("03:abc") + rest == t + [Colon] + Str("abc") + rest;
    BytesOfEncoding(t, Str("abc"), rest);
    DecodeSelectsBytes(Str("03:abc") + rest, Str("abc"), rest);
  }

  /** Input after the first value is returned, not rejected. */
  lemma DecodeLeavesTrailingInput()
    ensures Decode(Str("i1exyz")) == Some((Int(1), Str("xyz")))
  {
    assert IsNumeral(Str("1")) && NumeralValue(Str("1")) == 1;
    assert Str("i1exyz") == [LowerI] + Str("1") + [LowerE] + Str("xyz");
    IntOfEncoding(Str("1"), Str("xyz"));
    DecodeSelectsInt(Str("i1exyz"), 1, Str("xyz"));
  }
}
