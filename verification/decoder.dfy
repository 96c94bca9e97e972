/** The grammar rules of src/lib.rs as mutually recursive functions. Each rule
    consumes a prefix of its input and returns the value read together with
    the untouched remainder, or fails. */
module Decoder {
  import opened Wrappers
  import opened Values
  import opened Numerals

  predicate StartsWith(s: seq<byte>, b: byte)
  {
    |s| > 0 && s[0] == b
  }

  /** `t` is what is left of `s` after at least one byte was consumed. */
  predicate IsProperSuffix(t: seq<byte>, s: seq<byte>)
  {
    |t| < |s| && t == s[|s| - |t|..]
  }

  predicate IsSuffix(t: seq<byte>, s: seq<byte>)
  {
    |t| <= |s| && t == s[|s| - |t|..]
  }

  // ---------------------------------------------------------------------------
  // Leaf rules

  /** The `digit` parser: the length of the longest run of digits at the
      start of `s`. */
  function DigitSpan(s: seq<byte>): (n: nat)
    ensures n <= |s| && AllDigits(s[..n])
    ensures n < |s| ==> !IsDigit(s[n])
  {
    if |s| == 0 || !IsDigit(s[0]) then 0
    else
      var n' := DigitSpan(s[1..]);
      assert s[..1 + n'] == [s[0]] + s[1..][..n'];
      1 + n'
  }

  /** `number`: an optional `-`, then the longest run of one or more digits.
      Fails exactly when no digit follows the optional sign. */
  function ParseNumber(s: seq<byte>): (r: Option<(int, seq<byte>)>)
    ensures r.Some? <==> StartsWithDigit(s) || (StartsWith(s, Minus) && StartsWithDigit(s[1..]))
    ensures r.Some? ==> IsProperSuffix(r.value.1, s) && !StartsWithDigit(r.value.1)
  {
    var neg := StartsWith(s, Minus);
    var u := if neg then s[1..] else s;
    var n := DigitSpan(u);
    if n == 0 then None
    else
      var v := DigitsValue(u[..n]);
      Some((if neg then -(v as int) else v as int, u[n..]))
  }

  /** `l as usize` on a 64-bit target: two's-complement truncation, so a
      negative `i64` becomes a count of at least 2^63. */
  function UsizeCast(l: int): (n: nat)
    ensures 0 <= l < 0x1_0000_0000_0000_0000 ==> n == l
    ensures -0x8000_0000_0000_0000 <= l < 0 ==> n >= 0x8000_0000_0000_0000
    ensures n < 0x1_0000_0000_0000_0000
  {
    l % 0x1_0000_0000_0000_0000
  }

  /** `bytes`: a number `l`, a `:`, then exactly `l as usize` raw bytes,
      copied verbatim. */
  function ParseBytes(s: seq<byte>): (r: Option<(seq<byte>, seq<byte>)>)
    ensures r.Some? ==> IsProperSuffix(r.value.1, s) && |r.value.1| + |r.value.0| < |s|
    ensures r.Some? ==> s[0] == Minus || IsDigit(s[0])
  {
    match ParseNumber(s)
    case None => None
    case Some((l, rest)) =>
      if !StartsWith(rest, Colon) then None
      else
        var n := UsizeCast(l);
        if |rest| - 1 < n then None
        else Some((rest[1..1 + n], rest[1 + n..]))
  }

  /** `int`: `i`, a number, `e`. */
  function ParseInt(s: seq<byte>): (r: Option<(int, seq<byte>)>)
    ensures r.Some? ==> IsProperSuffix(r.value.1, s) && StartsWith(s, LowerI)
  {
    if !StartsWith(s, LowerI) then None
    else
      match ParseNumber(s[1..])
      case None => None
      case Some((i, rest)) =>
        if !StartsWith(rest, LowerE) then None
        else Some((i, rest[1..]))
  }

  // ---------------------------------------------------------------------------
  // Recursive rules

  /** `decode`: the alternatives bytes, int, list and dict, tried in that
      order; the first that succeeds wins. The kind of value read is fixed by
      the first byte of the input. */
  function Decode(s: seq<byte>): (r: Option<(Bencode, seq<byte>)>)
    decreases |s|, 1
    ensures r.Some? ==> IsProperSuffix(r.value.1, s)
    ensures r.Some? ==> |s| > 0
    ensures r.Some? ==> (r.value.0.Bytes? <==> s[0] == Minus || IsDigit(s[0]))
    ensures r.Some? ==> (r.value.0.Int? <==> s[0] == LowerI)
    ensures r.Some? ==> (r.value.0.List? <==> s[0] == LowerL)
    ensures r.Some? ==> (r.value.0.Dict? <==> s[0] == LowerD)
  {
    match ParseBytes(s)
    case Some((b, rest)) => Some((Bytes(b), rest))
    case None =>
      match ParseInt(s)
      case Some((i, rest)) => Some((Int(i), rest))
      case None =>
        match ParseList(s)
        case Some((l, rest)) => Some((List(l), rest))
        case None =>
          match ParseDict(s)
          case Some((d, rest)) => Some((Dict(d), rest))
          case None => None
  }

  /** `many0!(decode)`: read values until one fails to decode. The model's
      repetition never fails; where nom's `many0!` passes on its child's
      `Incomplete`, see "Left out" in README.md. */
  function Many(s: seq<byte>): (r: (seq<Bencode>, seq<byte>))
    decreases |s|, 2
    ensures IsSuffix(r.1, s)
  {
    match Decode(s)
    case None => ([], s)
    case Some((v, rest)) =>
      var (vs, r) := Many(rest);
      ([v] + vs, r)
  }

  /** `list`: `l`, values in the order they are met, `e`. */
  function ParseList(s: seq<byte>): (r: Option<(seq<Bencode>, seq<byte>)>)
    decreases |s|, 0
    ensures r.Some? ==> IsProperSuffix(r.value.1, s) && StartsWith(s, LowerL)
  {
    if !StartsWith(s, LowerL) then None
    else
      var (xs, rest) := Many(s[1..]);
      if !StartsWith(rest, LowerE) then None
      else Some((xs, rest[1..]))
  }

  /** `pair!(bytes, decode)`: a byte-string key followed by a value. */
  function ParsePair(s: seq<byte>): (r: Option<((seq<byte>, Bencode), seq<byte>)>)
    decreases |s|, 2
    ensures r.Some? ==> IsProperSuffix(r.value.1, s)
  {
    match ParseBytes(s)
    case None => None
    case Some((k, afterKey)) =>
      match Decode(afterKey)
      case None => None
      case Some((v, rest)) => Some(((k, v), rest))
  }

  /** `many0!(pair!(bytes, decode))`: read pairs until one fails; a failing
      pair consumes nothing. Like `Many`, the model's repetition never fails
      (see "Left out" in README.md). */
  function ManyPairs(s: seq<byte>): (r: (seq<(seq<byte>, Bencode)>, seq<byte>))
    decreases |s|, 3
    ensures IsSuffix(r.1, s)
  {
    match ParsePair(s)
    case None => ([], s)
    case Some((p, rest)) =>
      var (ps, r) := ManyPairs(rest);
      ([p] + ps, r)
  }

  /** `dict`: `d`, (byte string, value) pairs, `e`; the pairs are folded into
      a map in order, so a repeated key keeps its last value. */
  function ParseDict(s: seq<byte>): (r: Option<(map<seq<byte>, Bencode>, seq<byte>)>)
    decreases |s|, 0
    ensures r.Some? ==> IsProperSuffix(r.value.1, s) && StartsWith(s, LowerD)
  {
    if !StartsWith(s, LowerD) then None
    else
      var (ps, rest) := ManyPairs(s[1..]);
      if !StartsWith(rest, LowerE) then None
      else Some((ToMap(ps), rest[1..]))
  }

  // ---------------------------------------------------------------------------
  // Relational reading of the repetitions

  /** Decoding the values `xs` one after another from `s` leaves `r`. */
  ghost predicate DecodesSeq(s: seq<byte>, xs: seq<Bencode>, r: seq<byte>)
    decreases |xs|
  {
    if |xs| == 0 then r == s
    else
      match Decode(s)
      case None => false
      case Some((v, mid)) => v == xs[0] && DecodesSeq(mid, xs[1..], r)
  }

  /** Decoding the pairs `ps` one after another from `s` leaves `r`. */
  ghost predicate DecodesPairs(s: seq<byte>, ps: seq<(seq<byte>, Bencode)>, r: seq<byte>)
    decreases |ps|
  {
    if |ps| == 0 then r == s
    else
      match ParsePair(s)
      case None => false
      case Some((p, mid)) => p == ps[0] && DecodesPairs(mid, ps[1..], r)
  }

  /** Some sequence of pairs decodes from `s`, leaving `r`, and folds into
      the map `m`. */
  ghost predicate DecodesDict(s: seq<byte>, m: map<seq<byte>, Bencode>, r: seq<byte>)
  {
    exists ps :: DecodesPairs(s, ps, r) && m == ToMap(ps)
  }
}
