/** The decoded value tree (`enum Bencode` in src/lib.rs) and the folding of a
    dictionary's (key, value) pairs into a map. */
module Values {

  /** One byte of the input buffer (`u8`). */
  newtype byte = b: int | 0 <= b < 0x100

  /** The ASCII codes the grammar mentions. */
  const Minus: byte := 0x2D   // '-'
  const Colon: byte := 0x3A   // ':'
  const Zero: byte := 0x30    // '0'
  const Nine: byte := 0x39    // '9'
  const LowerI: byte := 0x69  // 'i'
  const LowerL: byte := 0x6C  // 'l'
  const LowerD: byte := 0x64  // 'd'
  const LowerE: byte := 0x65  // 'e'

  /** Largest `i64`. */
  const I64Max: int := 0x7FFF_FFFF_FFFF_FFFF

  /** A decoded bencode term. Integers are mathematical; the source's `i64`
      width only matters where it panics, which this model leaves out. */
  datatype Bencode =
    | Bytes(b: seq<byte>)
    | Int(i: int)
    | List(l: seq<Bencode>)
    | Dict(d: map<seq<byte>, Bencode>)

  /** The keys occurring in a sequence of pairs. */
  function KeysOf<K, V>(ps: seq<(K, V)>): set<K>
  {
    set i | 0 <= i < |ps| :: ps[i].0
  }

  /** `HashMap::from_iter`: insert the pairs in order, so a later pair with the
      same key overwrites an earlier one. */
  function ToMap<K, V>(ps: seq<(K, V)>): (m: map<K, V>)
    ensures m.Keys == KeysOf(ps)
  {
    if |ps| == 0 then map[]
    else
      var m' := ToMap(ps[..|ps| - 1]);
      assert KeysOf(ps) == KeysOf(ps[..|ps| - 1]) + {ps[|ps| - 1].0};
      m'[ps[|ps| - 1].0 := ps[|ps| - 1].1]
  }

  /** Last write wins: the value stored for a key is the one of its last
      occurrence in the pair sequence. */
  lemma {:induction false} LastWriteWins<K, V>(ps: seq<(K, V)>, i: nat)
    requires i < |ps|
    requires forall j :: i < j < |ps| ==> ps[j].0 != ps[i].0
    ensures ps[i].0 in ToMap(ps) && ToMap(ps)[ps[i].0] == ps[i].1
  {
    if i < |ps| - 1 {
      LastWriteWins(ps[..|ps| - 1], i);
    }
  }

  /** Prepending a pair whose key occurs nowhere later is the same as adding
      it to the map of the rest. */
  lemma {:induction false} ToMapFreshHead<K, V>(k: K, v: V, ps: seq<(K, V)>)
    requires k !in KeysOf(ps)
    ensures ToMap([(k, v)] + ps) == ToMap(ps)[k := v]
  {
    if |ps| > 0 {
      var init, last := ps[..|ps| - 1], ps[|ps| - 1];
      assert init + [last] == ps;
      assert [(k, v)] + init + [last] == [(k, v)] + ps;
      assert KeysOf(init) <= KeysOf(ps) by {
        forall j | 0 <= j < |init| ensures init[j].0 in KeysOf(ps) {
          assert init[j] == ps[j];
        }
      }
      assert last.0 != k by {
        assert last.0 == ps[|ps| - 1].0;
      }
      ToMapFreshHead(k, v, init);
      ToMapSnoc([(k, v)] + init, last.0, last.1);
      ToMapSnoc(init, last.0, last.1);
      UpdatesCommute(ToMap(init), k, v, last.0, last.1);
    }
  }

  lemma UpdatesCommute<K, V>(m: map<K, V>, k: K, v: V, k': K, v': V)
    requires k != k'
    ensures m[k := v][k' := v'] == m[k' := v'][k := v]
  {
  }

  /** Appending a pair to the sequence stores it in the map. */
  lemma ToMapSnoc<K, V>(ps: seq<(K, V)>, k: K, v: V)
    ensures ToMap(ps + [(k, v)]) == ToMap(ps)[k := v]
  {
    assert (ps + [(k, v)])[..|ps|] == ps;
  }

  lemma RemoveAndRestore<K, V>(m: map<K, V>, k: K)
    requires k in m
    ensures |m - {k}| < |m| && (m - {k})[k := m[k]] == m
  {
    assert (m - {k}).Keys == m.Keys - {k};
  }

  /** Every pair of `ps` is an entry of `m`. */
  ghost predicate PairsOf<K, V>(ps: seq<(K, V)>, m: map<K, V>)
  {
    forall i :: 0 <= i < |ps| ==> ps[i].0 in m && ps[i].1 == m[ps[i].0]
  }

  lemma PairsOfSnoc<K, V>(ps: seq<(K, V)>, m: map<K, V>, k: K)
    requires k in m && PairsOf(ps, m - {k})
    ensures PairsOf(ps + [(k, m[k])], m)
  {
    var qs := ps + [(k, m[k])];
    forall i | 0 <= i < |qs| ensures qs[i].0 in m && qs[i].1 == m[qs[i].0] {
      if i < |ps| {
        assert qs[i] == ps[i];
      }
    }
  }

  /** Some listing of a map's entries, each key once; the proof-only
      serialiser writes a dictionary's pairs in this order. */
  ghost function Entries<K, V>(m: map<K, V>): (ps: seq<(K, V)>)
    ensures PairsOf(ps, m) && ToMap(ps) == m
    ensures forall i, j :: 0 <= i < j < |ps| ==> ps[i].0 != ps[j].0
    decreases |m|
  {
    if m == map[] then []
    else
      var k :| k in m;
      RemoveAndRestore(m, k);
      var ps' := Entries(m - {k});
      ToMapSnoc(ps', k, m[k]);
      PairsOfSnoc(ps', m, k);
      assert forall i :: 0 <= i < |ps'| ==> ps'[i].0 != k;
      ps' + [(k, m[k])]
  }
}
