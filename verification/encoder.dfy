/** A proof-only serialiser (the source has none) and the round trip: the
    decoder reads back what the serialiser writes, and leaves whatever
    follows untouched. */
module Encoder {
  import opened Wrappers
  import opened Values
  import opened Seqs
  import opened Numerals
  import opened Decoder
  import opened DecoderLemmas

  /** Values the decoder can read back without its `i64` parse panicking:
      every byte string (keys included) at most `i64::MAX` long, every
      integer in `[-i64::MAX, i64::MAX]` (the digits of `i64::MIN` overflow
      before they are negated). */
  ghost predicate Representable(v: Bencode)
  {
    match v
    case Bytes(b) => |b| <= I64Max
    case Int(i) => -I64Max <= i <= I64Max
    case List(l) => forall i :: 0 <= i < |l| ==> Representable(l[i])
    case Dict(d) => forall k :: k in d ==> |k| <= I64Max && Representable(d[k])
  }

  /** Decimal length, `:`, payload. */
  function EncodeBytes(b: seq<byte>): (e: seq<byte>)
  {
    DecimalDigits(|b|) + [Colon] + b
  }

  /** Canonical decimal integers and lengths; a dictionary's pairs in the
      order `Entries` lists them (each key once, but not sorted). */
  ghost function Encode(v: Bencode): (e: seq<byte>)
    decreases v, 1
  {
    match v
    case Bytes(b) => EncodeBytes(b)
    case Int(i) => [LowerI] + Numeral(i) + [LowerE]
    case List(l) => [LowerL] + EncodeList(l) + [LowerE]
    case Dict(d) => [LowerD] + EncodePairs(Entries(d), v) + [LowerE]
  }

  ghost function EncodeList(l: seq<Bencode>): (e: seq<byte>)
    decreases l
  {
    if |l| == 0 then [] else Encode(l[0]) + EncodeList(l[1..])
  }

  /** The pairs of a dictionary `parent`; `parent` only serves to show that
      the recursion into the values terminates. */
  ghost function EncodePairs(ps: seq<(seq<byte>, Bencode)>, parent: Bencode): (e: seq<byte>)
    requires forall i :: 0 <= i < |ps| ==> (parent decreases to ps[i].1)
    decreases parent, 0, |ps|
  {
    if |ps| == 0 then []
    else EncodeBytes(ps[0].0) + Encode(ps[0].1) + EncodePairs(ps[1..], parent)
  }

  /** A serialised byte string reads back as itself. */
  lemma BytesRoundTrip(b: seq<byte>, rest: seq<byte>)
    requires |b| <= I64Max
    ensures ParseBytes(EncodeBytes(b) + rest) == Some((b, rest))
  {
    NumeralOfInt(|b|);
    BytesOfEncoding(DecimalDigits(|b|), b, rest);
  }

  /** Round trip: decoding the serialisation of `v` followed by any bytes `t`
      gives back `v` and exactly `t`. */
  lemma {:induction false} RoundTrip(v: Bencode, t: seq<byte>)
    requires Representable(v)
    ensures Decode(Encode(v) + t) == Some((v, t))
    decreases v, 2
  {
    match v
    case Bytes(b) =>
      BytesRoundTrip(b, t);
      DecodeSelectsBytes(Encode(v) + t, b, t);
    case Int(i) =>
      NumeralOfInt(i);
      IntOfEncoding(Numeral(i), t);
      DecodeSelectsInt(Encode(v) + t, i, t);
    case List(_) =>
      ListValueRoundTrip(v, t);
    case Dict(_) =>
      DictValueRoundTrip(v, t);
  }

  lemma {:induction false} ListValueRoundTrip(v: Bencode, t: seq<byte>)
    requires v.List? && Representable(v)
    ensures Decode(Encode(v) + t) == Some((v, t))
    decreases v, 1
  {
    var l := v.l;
    var body := EncodeList(l) + ([LowerE] + t);
    ListRoundTrip(l, [LowerE] + t);
    ListOfDecodes(body, l, t);
    assert Encode(v) == [LowerL] + EncodeList(l) + [LowerE];
    Assoc3([LowerL], EncodeList(l), [LowerE], t);
    DecodeSelectsList(Encode(v) + t, l, t);
  }

  lemma {:induction false} DictValueRoundTrip(v: Bencode, t: seq<byte>)
    requires v.Dict? && Representable(v)
    ensures Decode(Encode(v) + t) == Some((v, t))
    decreases v, 1
  {
    var d := v.d;
    var ps := Entries(d);
    var body := EncodePairs(ps, v) + ([LowerE] + t);
    PairsRoundTrip(ps, v, [LowerE] + t);
    DictOfDecodes(body, ps, t);
    assert Encode(v) == [LowerD] + EncodePairs(ps, v) + [LowerE];
    Assoc3([LowerD], EncodePairs(ps, v), [LowerE], t);
    DecodeSelectsDict(Encode(v) + t, d, t);
  }

  /** The serialised elements of a list decode one after another. */
  lemma {:induction false} ListRoundTrip(l: seq<Bencode>, u: seq<byte>)
    requires forall i :: 0 <= i < |l| ==> Representable(l[i])
    ensures DecodesSeq(EncodeList(l) + u, l, u)
    decreases l
  {
    if |l| > 0 {
      var tail := EncodeList(l[1..]) + u;
      Assoc(Encode(l[0]), EncodeList(l[1..]), u);
      RoundTrip(l[0], tail);
      ListRoundTrip(l[1..], u);
      DecodesSeqCons(Encode(l[0]) + tail, l[0], tail, l[1..], u);
      HeadTail(l);
    }
  }

  /** The serialised pairs of a dictionary decode one after another. */
  lemma {:induction false} PairsRoundTrip(ps: seq<(seq<byte>, Bencode)>, parent: Bencode, u: seq<byte>)
    requires forall i :: 0 <= i < |ps| ==> (parent decreases to ps[i].1)
    requires forall i :: 0 <= i < |ps| ==> |ps[i].0| <= I64Max && Representable(ps[i].1)
    ensures DecodesPairs(EncodePairs(ps, parent) + u, ps, u)
    decreases parent, 0, |ps|
  {
    if |ps| > 0 {
      var (k, x) := ps[0];
      var tail := EncodePairs(ps[1..], parent) + u;
      var s := EncodeBytes(k) + (Encode(x) + tail);
      Assoc3(EncodeBytes(k), Encode(x), EncodePairs(ps[1..], parent), u);
      BytesRoundTrip(k, Encode(x) + tail);
      RoundTrip(x, tail);
      PairOf(s, k, Encode(x) + tail, x, tail);
      PairsRoundTrip(ps[1..], parent, u);
      DecodesPairsCons(s, (k, x), tail, ps[1..], u);
      HeadTail(ps);
    }
  }
}
