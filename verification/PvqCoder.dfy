/** encode_pulses() and decode_pulses(): a pulse vector through the entropy coder. */
module PvqCoder {
  import opened Pvq
  import opened PvqTable
  import opened Arith
  import opened RangeModel
  import RoundTrip
  import Enc = EntEnc
  import Dec = EntDec

  lemma CodebookSize(n: nat, k: nat)
    requires n >= 2 && k >= 1
    ensures V(n, k) >= 4
  {
    UOdd(0);
    UOdd(1);
    VMono(2, 1, n, k);
  }

  method EncodePulses(enc: Enc.Encoder, y: seq<int>, k: nat)
    requires enc.Valid() && |y| >= 2 && k > 0 && Pulses(y) == k && V(|y|, k) < 0x1_0000_0000
    modifies enc, enc.buf
    ensures Rank(y) < V(|y|, k) && 1 < V(|y|, k)
    ensures enc.Valid() && enc.ops == old(enc.ops) + UintOps(Rank(y), V(|y|, k)) && enc.storage == old(enc.storage)
  {
    hide U, Rank, Run, UintOps, Enc.Encoder.Valid;
    CodebookSize(|y|, k);
    RankFits(y);
    var i := Icwrs(y);
    EntryFits(|y|, k, |y|, k);
    enc.Uint(i, UTable(|y|, k) + UTable(|y|, k + 1));
  }

  /** The calls of a whole vector followed by `post` are what the packet goes on with. */
  ghost predicate InSync(dec: Dec.Decoder, y: seq<int>, k: nat, post: seq<Op>)
    reads dec, dec.buf
  {
    && |y| >= 2 && k > 0 && Pulses(y) == k && 1 < V(|y|, k) < 0x1_0000_0000 && Rank(y) < V(|y|, k)
    && Holds(Run(dec.ops + UintOps(Rank(y), V(|y|, k)) + post), dec.packet)
  }

  /**
   * Whatever the packet holds, the result is the codeword at some index i of the codebook, each component cut to 16
   * bits. Below 32768 pulses the cut is exact, and what comes out is a codeword with its energy. When the packet
   * goes on with a vector, i is its rank.
   */
  method DecodePulses(dec: Dec.Decoder, n: nat, k: nat, out: array<int>, ghost y: seq<int>, ghost post: seq<Op>)
    returns (yy: int, ghost i: nat)
    requires dec.Valid() && n >= 2 && 0 < k && V(n, k) < 0x1_0000_0000 && n <= out.Length
    requires dec.buf as object != out as object
    modifies dec, out
    ensures dec.Valid() && i < V(n, k)
    ensures forall j :: 0 <= j < n ==> out[j] == Int16(Unrank(n, k, i)[j])
    ensures k < 0x8000 ==>
              out[..n] == Unrank(n, k, i) && Pulses(out[..n]) == k && yy == Energy(out[..n])
    ensures old(InSync(dec, y, k, post)) && |y| == n ==>
              && i == Rank(y) && Unrank(n, k, i) == y
              && dec.error == old(dec.error) && dec.ops == old(dec.ops) + UintOps(Rank(y), V(n, k))
  {
    hide U, Rank, Run, UintOps, Holds, Dec.CorruptUint, Unrank, Energy, Pulses, Int16;
    CodebookSize(n, k);
    EntryFits(n, k, n, k);
    ghost var pre := dec.ops;
    ghost var synced := InSync(dec, y, k, post) && |y| == n;
    var w := dec.Uint(UTable(n, k) + UTable(n, k + 1));
    i := w;
    if synced {
      RoundTrip.DecoderHolds(dec);
      SyncedUint(pre, Rank(y), V(n, k), i, post, dec.ops, dec.packet);
      UnrankRank(y);
    }
    yy := Cwrsi(n, k, w, out);
    assert dec.Valid();
  }

  lemma SyncedUint(pre: seq<Op>, v: nat, ft: nat, w: nat, post: seq<Op>, ops: seq<Op>, p: seq<byte>)
    requires 1 < ft < 0x1_0000_0000 && v < ft && w < ft
    requires Holds(Run(pre + UintOps(v, ft) + post), p) && Holds(Run(ops), p)
    requires ops == pre + UintOps(w, ft) || Dec.CorruptUint(pre, ops, ft)
    ensures w == v && ops == pre + UintOps(v, ft) && !Dec.CorruptUint(pre, ops, ft)
  {
    hide Run, Holds, UintOps, Dec.CorruptUint;
    RoundTrip.NeverCorrupt(pre, v, ft, post, ops, p);
    RoundTrip.CallsUniform(RoundTrip.Uniform(ft), v);
    RoundTrip.CallsUniform(RoundTrip.Uniform(ft), w);
    RoundTrip.FollowValue(pre, RoundTrip.Uniform(ft), v, w, post, p);
  }
}
