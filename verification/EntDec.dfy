/** The range decoder, celt/entdec.c, over any bytes whatever. */
module EntDec {
  import opened Arith
  import opened RangeModel
  import opened Window

  const WINDOW_SIZE: nat := 32

  class Decoder {
    const buf: array<byte>
    const storage: nat
    var endOffs: nat
    var endWindow: nat
    var nendBits: nat
    var nbitsTotal: int
    var offs: nat
    var rng: nat
    var val: nat
    var ext: nat
    var rem: int
    var error: int
    /** The packet being read, and every call decoded so far. */
    ghost const packet: seq<byte>
    ghost var ops: seq<Op>

    ghost predicate Reading()
      reads buf
    {
      storage <= buf.Length && buf[..storage] == packet
    }

    /** val is the distance from the code point to the top of interval s, less one; the first s.n + d bytes are in. */
    ghost predicate RangeOf(s: State, d: nat)
      reads this`rng, this`val, this`offs, this`rem, this`nbitsTotal
    {
      var k := s.n + d;
      && 1 <= k && rng == s.rng && 0 < rng <= CODE_TOP && val < rng
      && val == s.low + s.rng - 1 - Prefix(packet, k) / 2
      && offs == Min(k, storage) && rem == At(packet, k - 1)
      && nbitsTotal == 8 * k + 1 + s.bits
    }

    /** The window holds the next unread bits from the end of the packet. */
    ghost predicate RawOf(bits: nat)
      reads this`endOffs, this`endWindow, this`nendBits
    {
      && nendBits <= WINDOW_SIZE && (bits + nendBits) % 8 == 0
      && endOffs == Min((bits + nendBits) / 8, storage)
      && endWindow == TailBits(packet, bits, nendBits)
    }

    ghost predicate Valid()
      reads this, buf
    {
      var s := Run(ops);
      && Reading() && |packet| == storage && CODE_BOT < rng
      && RangeOf(s, 4) && RawOf(s.bits) && s.raw == Tail(packet) % Pow2(s.bits)
    }

    method ReadByte() returns (b: byte)
      requires Reading() && |packet| == storage && offs <= storage
      modifies this`offs
      ensures b == At(packet, old(offs)) && offs == Min(old(offs) + 1, storage)
    {
      if offs < storage {
        b := buf[offs];
        offs := offs + 1;
      } else {
        b := 0;
      }
    }

    method ReadByteFromEnd() returns (b: byte)
      requires Reading() && |packet| == storage && endOffs <= storage
      modifies this`endOffs
      ensures b == if old(endOffs) < storage then packet[storage - 1 - old(endOffs)] else 0
      ensures endOffs == Min(old(endOffs) + 1, storage)
    {
      if endOffs < storage {
        endOffs := endOffs + 1;
        b := buf[storage - endOffs];
      } else {
        b := 0;
      }
    }

    /** The body of the renormalisation loop. */
    method ShiftIn(ghost s: State, ghost d: nat)
      requires Reading() && |packet| == storage && RangeOf(s, d) && rng <= CODE_BOT
      modifies this`rng, this`val, this`offs, this`rem, this`nbitsTotal
      ensures RangeOf(Shift(s), d) && rng == 256 * old(rng)
    {
      hide Prefix;
      CodeShift(packet, s.n + d, val, s.low, rng);
      nbitsTotal := nbitsTotal + 8;
      rng := rng * 256;
      var last := rem;
      rem := ReadByte();
      assert rem == At(packet, s.n + d);
      var sym := (last * 256 + rem) / 2;
      val := (val * 256 + (255 - sym % 256)) % CODE_TOP;
    }

    method Normalize(ghost s: State, ghost d: nat)
      requires Reading() && |packet| == storage && RangeOf(s, d)
      modifies this`rng, this`val, this`offs, this`rem, this`nbitsTotal
      ensures RangeOf(RangeModel.Normalize(s), d)
    {
      ghost var t := s;
      while rng <= CODE_BOT
        invariant RangeOf(t, d) && RangeModel.Normalize(t) == RangeModel.Normalize(s)
        decreases CODE_TOP - rng
      {
        ShiftIn(t, d);
        t := Shift(t);
      }
    }

    /** ec_dec_init() */
    constructor (b: array<byte>, size: nat)
      requires size <= b.Length
      ensures buf == b && storage == size && packet == b[..size]
      ensures Valid() && ops == [] && error == 0
    {
      buf := b;
      storage := size;
      packet := b[..size];
      endOffs, endWindow, nendBits := 0, 0, 0;
      nbitsTotal := 33 - 24;
      offs := 0;
      rng := 128;
      ext, error := 0, 0;
      ops := [];
      val, rem := 0, 0;
      new;
      rem := ReadByte();
      val := rng - 1 - rem / 2;
      ghost var s := State(0, 0, 128, 0, 0);
      assert Prefix(packet, 1) == At(packet, 0) by {
        assert Prefix(packet, 0) == 0;
      }
      Normalize(s, 1);
      InitNormalized();
    }

    /** How every symbol decoder ends: drop what lies above the symbol, keep its size, renormalise. */
    method Take(drop: nat, size: nat, ghost fl: nat, ghost fh: nat, ghost ft: nat)
      requires Valid() && fl < fh <= ft <= CODE_BOT
      requires drop == rng - Bound(rng, fh, ft) && size == Bound(rng, fh, ft) - Bound(rng, fl, ft)
      requires drop <= val < drop + size
      modifies this`rng, this`val, this`offs, this`rem, this`nbitsTotal, this`ops
      ensures Valid() && ops == old(ops) + [Freq(fl, fh, ft)]
    {
      hide Run, Bound, Prefix, Tail, TailBits, Pow2;
      ghost var s := Narrow(Run(ops), fl, fh, ft);
      RunAppend(ops, Freq(fl, fh, ft));
      ops := ops + [Freq(fl, fh, ft)];
      assert Run(ops) == RangeModel.Normalize(s);
      val := val - drop;
      rng := size;
      Normalize(s, 4);
    }

    /** The cumulative frequency the code point falls on, of a total of ft. */
    method Decode(ft: nat) returns (fs: nat)
      requires Valid() && 0 < ft <= CODE_BOT
      modifies this`ext
      ensures Valid() && ext == rng / ft && Points(rng, val, fs, ft)
    {
      DecodePoints(rng, val, ft);
      ext := rng / ft;
      var s := val / ext;
      fs := ft - Min(s + 1, ft);
    }

    method DecodeBin(bits: nat) returns (fs: nat)
      requires Valid() && bits <= 23
      modifies this`ext
      ensures Valid() && ext == rng / Total(bits) && Points(rng, val, fs, Total(bits))
    {
      DecodePoints(rng, val, Total(bits));
      ext := rng / Total(bits);  // rng >> bits
      var s := val / ext;
      fs := Total(bits) - Min(s + 1, Total(bits));
    }

    /** Accept the symbol [fl, fh) that holds the decoded frequency fs. */
    method Update(fl: nat, fh: nat, ft: nat, ghost fs: nat)
      requires Valid() && fl <= fs < fh <= ft <= CODE_BOT
      requires ext == rng / ft && Points(rng, val, fs, ft)
      modifies this`rng, this`val, this`offs, this`rem, this`nbitsTotal, this`ops
      ensures Valid() && ops == old(ops) + [Freq(fl, fh, ft)]
    {
      NarrowFields(rng, fl, fh, ft);
      PointsWithin(rng, val, fs, fl, fh, ft);
      UpperGap(rng, fh, ft);
      var s := ext * (ft - fh);
      if fl > 0 {
        Take(s, ext * (fh - fl), fl, fh, ft);
      } else {
        Take(s, rng - s, fl, fh, ft);
      }
    }

    method BitLogp(logp: nat) returns (bit: bool)
      requires Valid() && 1 <= logp <= 23
      modifies this`rng, this`val, this`offs, this`rem, this`nbitsTotal, this`ops
      ensures Valid() && ops == old(ops) + [BitOp(bit, logp)]
    {
      BitFields(rng, false, logp);
      BitFields(rng, true, logp);
      var s := rng / Total(logp);  // rng >> logp
      bit := val < s;
      if bit {
        Take(0, s, Total(logp) - 1, Total(logp), Total(logp));
      } else {
        Take(s, rng - s, 0, Total(logp) - 1, Total(logp));
      }
    }

    /** The search loop of ec_dec_icdf(): the first entry at or below val, scaled by r. */
    method Search(icdf: seq<nat>, r: nat) returns (k: nat, s: nat, t: nat)
      requires val < rng && |icdf| > 0 && icdf[|icdf| - 1] == 0
      ensures k < |icdf| && s == r * icdf[k] <= val < t
      ensures t == if k == 0 then rng else r * icdf[k - 1]
    {
      k, t := 0, rng;
      NonNegative(r, icdf[0]);
      s := r * icdf[0];
      while val < s
        invariant k < |icdf| && s == r * icdf[k] && val < t
        invariant t == if k == 0 then rng else r * icdf[k - 1]
        decreases |icdf| - k
      {
        t := s;
        k := k + 1;
        NonNegative(r, icdf[k]);
        s := r * icdf[k];
      }
    }

    /** The symbol of an inverse cumulative table (ec_dec_icdf and ec_dec_icdf16). */
    method Icdf(icdf: seq<nat>, ftb: nat) returns (k: nat)
      requires Valid() && IcdfTable(icdf, ftb)
      modifies this`rng, this`val, this`offs, this`rem, this`nbitsTotal, this`ops
      ensures Valid() && IcdfCodes(icdf, k, ftb) && ops == old(ops) + [IcdfOp(k, icdf, ftb)]
    {
      hide Run, Total, Prefix, Tail, TailBits, Bound;
      DivNat(rng, Total(ftb));
      var r := rng / Total(ftb);  // rng >> ftb
      var s, t;
      k, s, t := Search(icdf, r);
      IcdfFields(rng, icdf, k, ftb);
      ghost var op := IcdfOp(k, icdf, ftb);
      Take(s, t - s, op.fl, op.fh, op.ft);
    }

    /** k raw bits from the end of the packet; past its start they read as zero. */
    method RawBits(k: nat) returns (v: nat)
      requires Valid() && 1 <= k <= 25
      modifies this`endOffs, this`endWindow, this`nendBits, this`nbitsTotal, this`ops
      ensures Valid() && v < Pow2(k) && ops == old(ops) + [Bits(v, k)]
    {
      hide Run, Prefix, Tail, TailBits, Pow2;
      ghost var s := Run(ops);
      if nendBits < k {
        Refill(s.bits);
      }
      WindowShrinks(packet, s.bits, nendBits, k);
      v := endWindow % Pow2(k);
      Consume(k, s.bits);
      AppendRaw(s, v, k);
      RunAppend(ops, Bits(v, k));
      ops := ops + [Bits(v, k)];
    }

    /** The refill loop of ec_dec_bits(). */
    method Refill(ghost bits: nat)
      requires Reading() && |packet| == storage && RawOf(bits) && nendBits < 25
      modifies this`endOffs, this`endWindow, this`nendBits
      ensures RawOf(bits) && nendBits >= 25
    {
      hide Tail, Pow2, Or, TailBits;
      var full := false;
      while !full
        invariant RawOf(bits) && (nendBits <= 24 || full) && (full ==> nendBits > 24)
        decreases WINDOW_SIZE - nendBits
      {
        WindowGrows(packet, bits, nendBits, (bits + nendBits) / 8);
        var b := ReadByteFromEnd();
        endWindow := Or(endWindow, b * Pow2(nendBits));
        nendBits := nendBits + 8;
        full := nendBits > WINDOW_SIZE - 8;
      }
    }

    method Consume(k: nat, ghost bits: nat)
      requires RawOf(bits) && k <= nendBits
      modifies this`endWindow, this`nendBits, this`nbitsTotal
      ensures RawOf(bits + k) && nbitsTotal == old(nbitsTotal) + k
    {
      hide Tail, TailBits, Pow2;
      WindowShrinks(packet, bits, nendBits, k);
      endWindow := endWindow / Pow2(k);
      nendBits := nendBits - k;
      nbitsTotal := nbitsTotal + k;
    }

    lemma AppendRaw(s: State, v: nat, k: nat)
      requires s.raw == Tail(packet) % Pow2(s.bits) && v == TailBits(packet, s.bits, k) && 1 <= k <= 25
      requires CODE_BOT < s.rng <= CODE_TOP
      ensures v < Pow2(k) && Step(s, Bits(v, k)).raw == Tail(packet) % Pow2(s.bits + k)
    {
      TailBitsAll(packet, s.bits, k);
    }

    /** The two parts of a value of a large alphabet: eight range-coded bits, the rest raw. */
    method UintBoth(ft: nat) returns (high: nat, low: nat)
      requires Valid() && 1 < ft < 0x1_0000_0000 && ILog(ft - 1) > 8
      modifies this
      ensures Valid() && error == old(error) && UintParts(high, low, ft)
      ensures ops == old(ops) + [UintHigh(high, ft), Bits(low, ILog(ft - 1) - 8)]
    {
      hide Run, Pow2, ILog, Prefix, Tail, TailBits;
      high := UintTop(ft);
      UintSplit(0, ft);
      low := RawBits(ILog(ft - 1) - 8);
    }

    method UintTop(ft: nat) returns (high: nat)
      requires Valid() && 1 < ft < 0x1_0000_0000 && ILog(ft - 1) > 8
      modifies this
      ensures Valid() && error == old(error) && high <= (ft - 1) / Pow2(ILog(ft - 1) - 8) < 256
      ensures ops == old(ops) + [UintHigh(high, ft)]
    {
      hide Run, Points, Pow2, ILog, Bound, Prefix, Tail, TailBits;
      UintSplit(0, ft);
      var ft' := (ft - 1) / Pow2(ILog(ft - 1) - 8) + 1;
      high := Decode(ft');
      PointsBelow(rng, val, high, ft');
      Update(high, high + 1, ft', high);
    }

    /** A value of an alphabet of any 32-bit size. It stays in the alphabet even on a corrupt packet. */
    method Uint(ft: nat) returns (v: nat)
      requires Valid() && 1 < ft < 0x1_0000_0000
      modifies this
      ensures Valid() && v < ft
      ensures || (error == old(error) && ops == old(ops) + UintOps(v, ft))
              || (error == 1 && v == ft - 1 && CorruptUint(old(ops), ops, ft))
    {
      hide Run, Points, Pow2, ILog, Bound, Prefix, Tail, TailBits, UintOps, Or;
      var ftb := ILog(ft - 1);
      if ftb > 8 {
        ftb := ftb - 8;
        var s, low := UintBoth(ft);
        UintRejoin(s, low, ft);
        var t := Or(s * Pow2(ftb), low);
        if t <= ft - 1 {
          return t;
        }
        error := 1;
        return ft - 1;
      } else {
        UintSmall(0, ft);
        v := Decode(ft);
        PointsBelow(rng, val, v, ft);
        UintSmall(v, ft);
        Update(v, v + 1, ft, v);
      }
    }
  }

  lemma InitNormalized()
    ensures Normalize(State(0, 0, 128, 0, 0)) == INIT.(n := 3)
  {
    var s := State(0, 0, 128, 0, 0);
    assert Normalize(s) == Normalize(Shift(s)) == Normalize(Shift(Shift(s))) == Normalize(Shift(Shift(Shift(s))));
  }

  /** The two parts of a value outside an alphabet of ft: what only a corrupt packet can hold. */
  ghost predicate CorruptUint(before: seq<Op>, after: seq<Op>, ft: nat)
    requires 1 < ft < 0x1_0000_0000
  {
    && ILog(ft - 1) > 8
    && exists high: nat, low: nat ::
         UintParts(high, low, ft) && ft <= UintJoin(high, low, ft)
         && after == before + [UintHigh(high, ft), Bits(low, ILog(ft - 1) - 8)]
  }
}
