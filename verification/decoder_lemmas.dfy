/** Properties of the grammar rules that relate several calls: each rule reads
    back exactly the lexeme its contract describes (so the contracts hold in
    both directions), the failure cases of the source, and the first-byte
    dispatch of `decode`. */
module DecoderLemmas {
  import opened Wrappers
  import opened Values
  import opened Seqs
  import opened Numerals
  import opened Decoder

  // ---------------------------------------------------------------------------
  // Numbers

  /** `digit` stops exactly at the end of a digit run. */
  lemma {:induction false} DigitSpanOfDigits(ds: seq<byte>, rest: seq<byte>)
    requires AllDigits(ds) && !StartsWithDigit(rest)
    ensures DigitSpan(ds + rest) == |ds|
  {
    if |ds| > 0 {
      assert (ds + rest)[1..] == ds[1..] + rest;
      DigitSpanOfDigits(ds[1..], rest);
    } else {
      assert ds + rest == rest;
    }
  }

  /** What `number` consumes is a number lexeme, and the value it returns is
      the lexeme's value. */
  lemma NumberSound(s: seq<byte>)
    requires ParseNumber(s).Some?
    ensures var (v, rest) := ParseNumber(s).value;
            var k := |s| - |rest|;
            && s == s[..k] + rest
            && IsNumeral(s[..k])
            && v == NumeralValue(s[..k])
  {
    var (v, rest) := ParseNumber(s).value;
    var k := |s| - |rest|;
    if StartsWith(s, Minus) {
      var n := DigitSpan(s[1..]);
      assert k == 1 + n;
      assert s[..k][1..] == s[1..][..n];
    } else {
      assert s[..k] == s[..DigitSpan(s)];
    }
  }

  /** A number lexeme followed by a non-digit is read as its value, and the
      non-digit part is left. */
  lemma NumberOfNumeral(t: seq<byte>, rest: seq<byte>)
    requires IsNumeral(t) && !StartsWithDigit(rest)
    ensures ParseNumber(t + rest) == Some((NumeralValue(t), rest))
  {
    var s := t + rest;
    if t[0] == Minus {
      assert s[1..] == t[1..] + rest;
      DigitSpanOfDigits(t[1..], rest);
      assert s[1..][..|t| - 1] == t[1..];
    } else {
      DigitSpanOfDigits(t, rest);
      assert s[..|t|] == t;
    }
  }

  /** `number` skips any leading zeros, after a `-` or without one: zeros
      followed by a digit run read as that run's value. */
  lemma LeadingZerosIgnored(zeros: nat, ds: seq<byte>, rest: seq<byte>)
    requires |ds| > 0 && AllDigits(ds) && !StartsWithDigit(rest)
    ensures var z := seq(zeros, _ => Zero);
            && ParseNumber(z + ds + rest) == Some((DigitsValue(ds) as int, rest))
            && ParseNumber([Minus] + z + ds + rest) == Some((-(DigitsValue(ds) as int), rest))
  {
    var z := seq(zeros, _ => Zero);
    var t := z + ds;
    LeadingZerosValue(z, ds);
    UnsignedNumeral(t, DigitsValue(ds), rest);
    Assoc([Minus], z, ds);
    SignedNumeral([Minus] + z + ds + rest, t, DigitsValue(ds), rest);
  }

  lemma UnsignedNumeral(t: seq<byte>, n: nat, rest: seq<byte>)
    requires |t| > 0 && AllDigits(t) && DigitsValue(t) == n && !StartsWithDigit(rest)
    ensures ParseNumber(t + rest) == Some((n as int, rest))
  {
    NumberOfNumeral(t, rest);
  }

  lemma SignedNumeral(s: seq<byte>, t: seq<byte>, n: nat, rest: seq<byte>)
    requires s == [Minus] + t + rest
    requires |t| > 0 && AllDigits(t) && DigitsValue(t) == n && !StartsWithDigit(rest)
    ensures ParseNumber(s) == Some((-(n as int), rest))
  {
    var u := [Minus] + t;
    assert u[1..] == t;
    assert NumeralValue(u) == -(n as int);
    NumberOfNumeral(u, rest);
    assert s == u + rest;
  }

  // ---------------------------------------------------------------------------
  // Byte strings

  /** A length lexeme, `:`, and a payload of that length read back as the
      payload, verbatim, whatever follows. */
  lemma BytesOfEncoding(t: seq<byte>, b: seq<byte>, rest: seq<byte>)
    requires IsNumeral(t) && UsizeCast(NumeralValue(t)) == |b|
    ensures ParseBytes(t + [Colon] + b + rest) == Some((b, rest))
  {
    var after := [Colon] + b + rest;
    assert t + [Colon] + b + rest == t + after;
    NumberOfNumeral(t, after);
    assert after[1..1 + |b|] == b;
    assert after[1 + |b|..] == rest;
  }

  /** What `bytes` consumes is a length lexeme, `:`, and the payload it
      returns, whose length is the (cast) value of the lexeme. */
  lemma BytesSound(s: seq<byte>)
    requires ParseBytes(s).Some?
    ensures var (b, rest) := ParseBytes(s).value;
            var k := |s| - |rest| - |b| - 1;
            && 0 < k
            && s == s[..k] + [Colon] + b + rest
            && IsNumeral(s[..k])
            && |b| == UsizeCast(NumeralValue(s[..k]))
  {
    NumberSound(s);
    var (l, after) := ParseNumber(s).value;
    var (b, rest) := ParseBytes(s).value;
    var k := |s| - |after|;
    assert after[1..] == b + rest;
    assert after == [Colon] + (b + rest);
    Assoc3(s[..k], [Colon], b, rest);
  }

  /** A payload shorter than the announced length fails (truncated input such
      as `4:sp`). */
  lemma ShortPayloadFails(t: seq<byte>, p: seq<byte>)
    requires IsNumeral(t) && |p| < UsizeCast(NumeralValue(t))
    ensures ParseBytes(t + [Colon] + p).None?
  {
    assert t + [Colon] + p == t + ([Colon] + p);
    NumberOfNumeral(t, [Colon] + p);
  }

  /** A length not followed by `:` fails. */
  lemma MissingColonFails(t: seq<byte>, u: seq<byte>)
    requires IsNumeral(t) && !StartsWithDigit(u) && !StartsWith(u, Colon)
    ensures ParseBytes(t + u).None?
  {
    NumberOfNumeral(t, u);
  }

  /** A negative length is cast to a count of at least 2^63, more than any
      real buffer holds, so the byte string fails. */
  lemma NegativeLengthFails(s: seq<byte>)
    requires |s| < 0x8000_0000_0000_0000
    requires ParseNumber(s).Some? && -0x8000_0000_0000_0000 <= ParseNumber(s).value.0 < 0
    ensures ParseBytes(s).None?
  {
  }

  // ---------------------------------------------------------------------------
  // Integers

  /** What `int` consumes is `i`, a number lexeme, `e`, and the value it
      returns is the lexeme's value. */
  lemma IntSound(s: seq<byte>)
    requires ParseInt(s).Some?
    ensures var (i, rest) := ParseInt(s).value;
            var k := |s| - |rest| - 1;
            && 1 < k
            && s == [LowerI] + s[1..k] + [LowerE] + rest
            && IsNumeral(s[1..k])
            && i == NumeralValue(s[1..k])
  {
    NumberSound(s[1..]);
    var (i, rest) := ParseInt(s).value;
    var after := ParseNumber(s[1..]).value.1;
    var k := |s| - |rest| - 1;
    assert after == [LowerE] + rest;
    assert s[1..][..|s[1..]| - |after|] == s[1..k];
    assert s == [LowerI] + (s[1..k] + ([LowerE] + rest));
    Assoc3([LowerI], s[1..k], [LowerE], rest);
  }

  /** `i`, a number lexeme, `e` reads back as the number. */
  lemma IntOfEncoding(t: seq<byte>, rest: seq<byte>)
    requires IsNumeral(t)
    ensures ParseInt([LowerI] + t + [LowerE] + rest) == Some((NumeralValue(t), rest))
  {
    var s := [LowerI] + t + [LowerE] + rest;
    assert s[1..] == t + ([LowerE] + rest);
    NumberOfNumeral(t, [LowerE] + rest);
  }

  /** A number not followed by `e` makes the integer fail. */
  lemma BadTerminatorFails(t: seq<byte>, u: seq<byte>)
    requires IsNumeral(t) && !StartsWithDigit(u) && !StartsWith(u, LowerE)
    ensures ParseInt([LowerI] + t + u).None?
  {
    assert ([LowerI] + t + u)[1..] == t + u;
    NumberOfNumeral(t, u);
  }

  // ---------------------------------------------------------------------------
  // Lists

  /** One step of the repetition. */
  lemma ManyStep(s: seq<byte>, v: Bencode, rest: seq<byte>)
    requires Decode(s) == Some((v, rest))
    ensures Many(s) == ([v] + Many(rest).0, Many(rest).1)
  {
  }

  /** `many0!(decode)` returns values that decode one after another and
      stops where no further value decodes. */
  lemma {:induction false} ManySound(s: seq<byte>)
    ensures DecodesSeq(s, Many(s).0, Many(s).1) && Decode(Many(s).1).None?
    decreases |s|
  {
    match Decode(s)
    case None =>
    case Some((v, rest)) =>
      ManySound(rest);
      ManyStep(s, v, rest);
      DropHead(v, Many(rest).0);
  }

  /** A list is `l`, values decoding one after another, `e`. */
  lemma ListSound(s: seq<byte>)
    requires ParseList(s).Some?
    ensures DecodesSeq(s[1..], ParseList(s).value.0, [LowerE] + ParseList(s).value.1)
  {
    ManySound(s[1..]);
    var rest := Many(s[1..]).1;
    HeadTail(rest);
  }

  /** `many0!(decode)` reads exactly the values that decode one after another,
      stopping at the first position where none decodes. */
  lemma {:induction false} ManyOfDecodes(s: seq<byte>, xs: seq<Bencode>, r: seq<byte>)
    requires DecodesSeq(s, xs, r) && Decode(r).None?
    ensures Many(s) == (xs, r)
    decreases |xs|
  {
    if |xs| > 0 {
      var (v, mid) := Decode(s).value;
      ManyOfDecodes(mid, xs[1..], r);
      ManyStep(s, v, mid);
      HeadTail(xs);
    }
  }

  lemma DecodesSeqCons(s: seq<byte>, x: Bencode, mid: seq<byte>, xs: seq<Bencode>, r: seq<byte>)
    requires Decode(s) == Some((x, mid)) && DecodesSeq(mid, xs, r)
    ensures DecodesSeq(s, [x] + xs, r)
  {
    DropHead(x, xs);
  }

  /** `l`, values decoding one after another, `e` reads back as the list of
      those values in order. */
  lemma ListOfDecodes(body: seq<byte>, xs: seq<Bencode>, t: seq<byte>)
    requires DecodesSeq(body, xs, [LowerE] + t)
    ensures ParseList([LowerL] + body) == Some((xs, t))
  {
    DropHead(LowerL, body);
    ManyOfDecodes(body, xs, [LowerE] + t);
  }

  // ---------------------------------------------------------------------------
  // Dicts

  /** One step of the repetition. */
  lemma ManyPairsStep(s: seq<byte>, p: (seq<byte>, Bencode), rest: seq<byte>)
    requires ParsePair(s) == Some((p, rest))
    ensures ManyPairs(s) == ([p] + ManyPairs(rest).0, ManyPairs(rest).1)
  {
  }

  /** `many0!(pair!(bytes, decode))` returns pairs that decode one after
      another and stops where no further pair decodes. */
  lemma {:induction false} ManyPairsSound(s: seq<byte>)
    ensures DecodesPairs(s, ManyPairs(s).0, ManyPairs(s).1) && ParsePair(ManyPairs(s).1).None?
    decreases |s|
  {
    match ParsePair(s)
    case None =>
    case Some((p, rest)) =>
      ManyPairsSound(rest);
      ManyPairsStep(s, p, rest);
      DropHead(p, ManyPairs(rest).0);
  }

  /** A dict is `d`, pairs decoding one after another, `e`, and its map is
      folded from those pairs. */
  lemma DictSound(s: seq<byte>)
    requires ParseDict(s).Some?
    ensures DecodesDict(s[1..], ParseDict(s).value.0, [LowerE] + ParseDict(s).value.1)
  {
    ManyPairsSound(s[1..]);
    var (ps, rest) := ManyPairs(s[1..]);
    HeadTail(rest);
    assert ParseDict(s) == Some((ToMap(ps), rest[1..]));
    assert DecodesPairs(s[1..], ps, [LowerE] + rest[1..]);
  }

  /** `many0!(pair!(bytes, decode))` reads exactly the pairs that decode one
      after another. */
  lemma {:induction false} ManyPairsOfDecodes(s: seq<byte>, ps: seq<(seq<byte>, Bencode)>, r: seq<byte>)
    requires DecodesPairs(s, ps, r) && ParsePair(r).None?
    ensures ManyPairs(s) == (ps, r)
    decreases |ps|
  {
    if |ps| > 0 {
      var (p, mid) := ParsePair(s).value;
      ManyPairsOfDecodes(mid, ps[1..], r);
      ManyPairsStep(s, p, mid);
      HeadTail(ps);
    }
  }

  lemma DecodesPairsCons(s: seq<byte>, p: (seq<byte>, Bencode), mid: seq<byte>, ps: seq<(seq<byte>, Bencode)>, r: seq<byte>)
    requires ParsePair(s) == Some((p, mid)) && DecodesPairs(mid, ps, r)
    ensures DecodesPairs(s, [p] + ps, r)
  {
    DropHead(p, ps);
  }

  /** A key that reads as a byte string followed by a value that decodes
      form a pair. */
  lemma PairOf(s: seq<byte>, k: seq<byte>, afterKey: seq<byte>, v: Bencode, rest: seq<byte>)
    requires ParseBytes(s) == Some((k, afterKey)) && Decode(afterKey) == Some((v, rest))
    ensures ParsePair(s) == Some(((k, v), rest))
  {
  }

  /** `d`, pairs decoding one after another, `e` reads back as the map folded
      from those pairs. */
  lemma DictOfDecodes(body: seq<byte>, ps: seq<(seq<byte>, Bencode)>, t: seq<byte>)
    requires DecodesPairs(body, ps, [LowerE] + t)
    ensures ParseDict([LowerD] + body) == Some((ToMap(ps), t))
  {
    DropHead(LowerD, body);
    EndIsNoPair(t);
    ManyPairsOfDecodes(body, ps, [LowerE] + t);
    DropHead(LowerE, t);
  }

  lemma EndIsNoPair(t: seq<byte>)
    ensures ParsePair([LowerE] + t).None?
  {
    assert ParseBytes([LowerE] + t).None?;
  }

  /** A key position that holds anything but a byte string (or the closing
      `e`) makes the dict fail, wherever it comes after the pairs read so
      far. */
  lemma NonByteStringKeyFails(body: seq<byte>, ps: seq<(seq<byte>, Bencode)>, r: seq<byte>)
    requires DecodesPairs(body, ps, r)
    requires ParseBytes(r).None? && !StartsWith(r, LowerE)
    ensures ParseDict([LowerD] + body).None?
  {
    DropHead(LowerD, body);
    ManyPairsOfDecodes(body, ps, r);
  }

  // ---------------------------------------------------------------------------
  // Dispatch

  /** Single-byte lookahead: the rule to run is chosen by the first byte. */
  function DecodeByLookahead(s: seq<byte>): (r: Option<(Bencode, seq<byte>)>)
  {
    if |s| == 0 then None
    else if s[0] == LowerI then
      match ParseInt(s) case Some((i, rest)) => Some((Int(i), rest)) case None => None
    else if s[0] == LowerL then
      match ParseList(s) case Some((l, rest)) => Some((List(l), rest)) case None => None
    else if s[0] == LowerD then
      match ParseDict(s) case Some((d, rest)) => Some((Dict(d), rest)) case None => None
    else if IsDigit(s[0]) || s[0] == Minus then
      match ParseBytes(s) case Some((b, rest)) => Some((Bytes(b), rest)) case None => None
    else None
  }

  /** `decode` on a byte string. */
  lemma DecodeSelectsBytes(s: seq<byte>, b: seq<byte>, rest: seq<byte>)
    requires ParseBytes(s) == Some((b, rest))
    ensures Decode(s) == Some((Bytes(b), rest))
  {
  }

  /** `decode` on an integer: the byte-string alternative fails on `i`. */
  lemma DecodeSelectsInt(s: seq<byte>, i: int, rest: seq<byte>)
    requires ParseInt(s) == Some((i, rest))
    ensures Decode(s) == Some((Int(i), rest))
  {
    assert ParseBytes(s).None?;
  }

  /** `decode` on a list: the earlier alternatives fail on `l`. */
  lemma DecodeSelectsList(s: seq<byte>, l: seq<Bencode>, rest: seq<byte>)
    requires ParseList(s) == Some((l, rest))
    ensures Decode(s) == Some((List(l), rest))
  {
    assert ParseBytes(s).None? && ParseInt(s).None?;
  }

  /** `decode` on a dict: the earlier alternatives fail on `d`. */
  lemma DecodeSelectsDict(s: seq<byte>, d: map<seq<byte>, Bencode>, rest: seq<byte>)
    requires ParseDict(s) == Some((d, rest))
    ensures Decode(s) == Some((Dict(d), rest))
  {
    assert ParseBytes(s).None? && ParseInt(s).None? && ParseList(s).None?;
  }

  /** Trying the four alternatives in order is the same as dispatching on the
      first byte: the alternatives are mutually exclusive. */
  lemma DecodeIsLookahead(s: seq<byte>)
    ensures Decode(s) == DecodeByLookahead(s)
  {
  }

  /** At most one of the four alternatives of `decode` succeeds on any input. */
  lemma AlternativesExclusive(s: seq<byte>)
    ensures ParseBytes(s).Some? ==> ParseInt(s).None? && ParseList(s).None? && ParseDict(s).None?
    ensures ParseInt(s).Some? ==> ParseList(s).None? && ParseDict(s).None?
    ensures ParseList(s).Some? ==> ParseDict(s).None?
  {
  }

  /** A buffer starting with `-` decodes only as the empty byte string of
      length `-0` (or `-00`, ...): the source never rejects a negative length
      explicitly, it only relies on the cast making it too long. */
  lemma MinusPrefixIsEmptyBytes(s: seq<byte>)
    requires StartsWith(s, Minus) && |s| < 0x8000_0000_0000_0000
    requires ParseNumber(s).Some? ==> ParseNumber(s).value.0 >= -0x8000_0000_0000_0000
    ensures Decode(s).Some? ==> Decode(s).value.0 == Bytes([]) && ParseNumber(s).value.0 == 0
  {
    if Decode(s).Some? {
      assert ParseBytes(s).Some?;
      BytesSound(s);
      var (b, rest) := ParseBytes(s).value;
      var k := |s| - |rest| - |b| - 1;
      assert s[..k][0] == Minus;
      NumberOfNumeral(s[..k], s[k..]);
      assert s == s[..k] + s[k..];
    }
  }
}
