/**
 * Both sides of the side information: celt_encode_with_ec() and celt_decode_with_ec_dred() between coarse energy
 * and allocation.
 */
module SideCoder {
  import opened Arith
  import opened RangeModel
  import opened SideInfo
  import opened TellFrac
  import Enc = EntEnc
  import Dec = EntDec

  lemma EncoderTell(enc: Enc.Encoder)
    requires enc.Valid()
    ensures EcTell(enc.nbitsTotal, enc.rng) == Run(enc.ops).Tell()
    ensures CODE_BOT < enc.rng <= CODE_TOP && 8 * enc.nbitsTotal - Log8(enc.rng) == Tell8(Run(enc.ops))
  {
    hide Log8;
  }

  lemma DecoderTell(dec: Dec.Decoder)
    requires dec.Valid()
    ensures EcTell(dec.nbitsTotal, dec.rng) == Run(dec.ops).Tell()
    ensures CODE_BOT < dec.rng <= CODE_TOP && 8 * dec.nbitsTotal - Log8(dec.rng) == Tell8(Run(dec.ops))
  {
    hide Log8;
  }

  // ---------------------------------------------------------------- arrays overwritten from `start` on

  /** An array that had contents `orig`, with `part` written over it from index `start`. */
  function Patched(orig: seq<int>, start: nat, part: seq<int>): (s: seq<int>)
    requires start + |part| <= |orig|
    ensures |s| == |orig|
  {
    orig[..start] + part + orig[start + |part|..]
  }

  lemma PatchNext(orig: seq<int>, start: nat, part: seq<int>, x: int)
    requires start + |part| < |orig|
    ensures Patched(orig, start, part)[start + |part|] == orig[start + |part|]
    ensures Patched(orig, start, part)[start + |part| := x] == Patched(orig, start, part + [x])
  {
  }

  lemma PatchKeeps(orig: seq<int>, start: nat, part: seq<int>)
    requires start + |part| < |orig|
    ensures var i := start + |part|;
            && Patched(orig, start, part)[i] == orig[i]
            && Patched(orig, start, part + [orig[i]]) == Patched(orig, start, part)
  {
  }

  lemma PatchBounds(orig: seq<int>, start: nat, part: seq<int>)
    requires start + |part| <= |orig|
    ensures Patched(orig, start, []) == orig
    ensures Patched(orig, start, part)[start..start + |part|] == part
  {
  }

  lemma PatchTwice(orig: seq<int>, start: nat, a: seq<int>, b: seq<int>)
    requires start + |a| <= |orig| && |a| == |b|
    ensures Patched(Patched(orig, start, a), start, b) == Patched(orig, start, b)
  {
  }

  // ---------------------------------------------------------------- time-frequency flags

  lemma TfStepCases(pre: seq<Op>, r: TfRun, flag: int, logp: nat, budget: int)
    requires 2 <= logp <= 5 && Flag(flag) && Flags(r.res) && Flag(r.curr) && Flag(r.changed)
    ensures var t := TfStep(pre, r, flag, logp, budget);
            if Run(pre + r.ops).Tell() + logp <= budget then
              && pre + t.ops == pre + r.ops + [BitOp(flag != r.curr, logp)] && t.res == r.res + [flag]
              && t.curr == flag && t.changed == if flag == 1 then 1 else r.changed
            else t == r.(res := r.res + [r.curr])
  {
    hide Run, BitOp;
  }

  lemma TfFlagsEmpty(pre: seq<Op>, transient: bool, budget: int)
    ensures TfFlags(pre, [], transient, budget) == TfRun([], [], 0, 0)
  {
  }

  /** One round of the flag loop of tf_encode(). */
  method EncodeFlag(enc: Enc.Encoder, tfRes: array<int>, i: nat, logp: nat, budget: int, tell: int, curr: int,
                    changed: int, ghost pre: seq<Op>, ghost r: TfRun, ghost orig: seq<int>, ghost start: nat)
    returns (tell': int, curr': int, changed': int)
    requires enc.Valid() && tfRes as object != enc.buf && start + |r.res| == i < |orig| == tfRes.Length
    requires 2 <= logp <= 5 && Flag(orig[i]) && Flags(r.res) && Flag(r.curr) && Flag(r.changed)
    requires enc.ops == pre + r.ops && tell == Run(enc.ops).Tell() && curr == r.curr && changed == r.changed
    requires tfRes[..] == Patched(orig, start, r.res)
    modifies enc, enc.buf, tfRes
    ensures enc.Valid() && enc.storage == old(enc.storage)
    ensures var t := TfStep(pre, r, orig[i], logp, budget);
            && enc.ops == pre + t.ops && tell' == Run(enc.ops).Tell() && curr' == t.curr && changed' == t.changed
            && tfRes[..] == Patched(orig, start, t.res)
  {
    hide Run, BitOp, Enc.Encoder.Valid, Patched, TfStep, EcTell;
    tell', curr', changed' := tell, curr, changed;
    PatchKeeps(orig, start, r.res);
    assert tfRes[..][i] == orig[i];
    TfStepCases(pre, r, orig[i], logp, budget);
    if tell + logp <= budget {
      enc.BitLogp(tfRes[i] != curr, logp);
      EncoderTell(enc);
      tell' := EcTell(enc.nbitsTotal, enc.rng);
      curr' := tfRes[i];
      changed' := if curr' == 1 then 1 else changed;
    } else {
      PatchNext(orig, start, r.res, curr);
      tfRes[i] := curr;
    }
  }

  /** The flag loop of tf_encode(): uncoded flags are overwritten by the value the decoder will assume. */
  method EncodeFlags(enc: Enc.Encoder, transient: bool, start: nat, end: nat, tfRes: array<int>, budget: int)
    returns (changed: int)
    requires enc.Valid() && start <= end <= tfRes.Length && tfRes as object != enc.buf && Flags(tfRes[start..end])
    modifies enc, enc.buf, tfRes
    ensures enc.Valid() && enc.storage == old(enc.storage)
    ensures var r := TfFlags(old(enc.ops), old(tfRes[start..end]), transient, budget);
            && enc.ops == old(enc.ops) + r.ops && changed == r.changed
            && tfRes[..] == Patched(old(tfRes[..]), start, r.res)
  {
    hide Run, BitOp, Enc.Encoder.Valid, Patched, TfFlags, TfStep, EcTell;
    ghost var pre, orig, raw := enc.ops, tfRes[..], tfRes[start..end];
    EncoderTell(enc);
    var tell := EcTell(enc.nbitsTotal, enc.rng);
    var logp := if transient then 2 else 4;
    var curr, i := 0, start;
    changed := 0;
    assert pre + [] == pre;
    PatchBounds(orig, start, []);
    TfFlagsEmpty(pre, transient, budget);
    ghost var r := TfFlags(pre, raw[..0], transient, budget);
    while i < end
      invariant start <= i <= end && enc.Valid() && enc.storage == old(enc.storage)
      invariant r == TfFlags(pre, raw[..i - start], transient, budget) && enc.ops == pre + r.ops
      invariant curr == r.curr && changed == r.changed && tell == Run(enc.ops).Tell()
      invariant logp == TfLogp(i == start, transient)
      invariant tfRes[..] == Patched(orig, start, r.res)
    {
      ghost var n := i - start;
      assert raw[n] == orig[i];
      TfFlagsNext(pre, raw[..n], raw[n], transient, budget);
      assert raw[..n + 1] == raw[..n] + [raw[n]];
      tell, curr, changed := EncodeFlag(enc, tfRes, i, logp, budget, tell, curr, changed, pre, r, orig, start);
      r := TfStep(pre, r, raw[n], logp, budget);
      logp := if transient then 4 else 5;
      i := i + 1;
    }
    assert raw[..end - start] == raw;
  }

  /** tf_encode() */
  method TfEncode(enc: Enc.Encoder, f: Frame, start: nat, end: nat, tfRes: array<int>, tfSelect: int)
    requires enc.Valid() && f.Usable() && start <= end <= tfRes.Length && tfRes as object != enc.buf
    requires Flags(tfRes[start..end]) && Flag(tfSelect)
    modifies enc, enc.buf, tfRes
    ensures enc.Valid() && enc.storage == old(enc.storage)
    ensures var out := TfCode(old(enc.ops), old(tfRes[start..end]), tfSelect, f, enc.storage);
            && enc.ops == old(enc.ops) + out.ops
            && tfRes[..] == Patched(old(tfRes[..]), start, out.tfRes)
  {
    hide Run, BitOp, Enc.Encoder.Valid, Patched, TfEntry, TfFlags, Resolved;
    ghost var orig := tfRes[..];
    EncoderTell(enc);
    var budget := 8 * enc.storage;
    var tell := EcTell(enc.nbitsTotal, enc.rng);
    var reserved := f.lm > 0 && tell + (if f.transient then 2 else 4) + 1 <= budget;
    budget := budget - if reserved then 1 else 0;
    ghost var r := TfFlags(enc.ops, tfRes[start..end], f.transient, budget);
    var changed := EncodeFlags(enc, f.transient, start, end, tfRes, budget);
    var select := 0;
    if reserved && TfEntry(f.lm, f.transient, 0, changed) != TfEntry(f.lm, f.transient, 1, changed) {
      enc.BitLogp(tfSelect == 1, 1);
      select := tfSelect;
    }
    PatchBounds(orig, start, r.res);
    PatchTwice(orig, start, r.res, Resolved(r.res, f.lm, f.transient, select));
    TfResolve(f, start, end, tfRes, select);
  }

  /** The loop both sides end with. */
  method TfResolve(f: Frame, start: nat, end: nat, tfRes: array<int>, select: int)
    requires f.Usable() && start <= end <= tfRes.Length && Flags(tfRes[start..end]) && Flag(select)
    modifies tfRes
    ensures tfRes[..] == Patched(old(tfRes[..]), start, Resolved(old(tfRes[start..end]), f.lm, f.transient, select))
  {
    hide TfEntry, Patched;
    ghost var orig, out := tfRes[..], Resolved(tfRes[start..end], f.lm, f.transient, select);
    PatchBounds(orig, start, []);
    var i := start;
    while i < end
      invariant start <= i <= end && tfRes[..] == Patched(orig, start, out[..i - start])
    {
      PatchNext(orig, start, out[..i - start], out[i - start]);
      assert out[..i - start] + [out[i - start]] == out[..i + 1 - start];
      assert tfRes[..][i] == orig[i] == orig[start..end][i - start];
      tfRes[i] := TfEntry(f.lm, f.transient, select, tfRes[i]);
      i := i + 1;
    }
    assert out[..end - start] == out;
  }

  /** The flag loop of tf_decode(). */
  method DecodeFlags(dec: Dec.Decoder, transient: bool, start: nat, end: nat, tfRes: array<int>, budget: int)
    returns (changed: int, ghost raw: seq<int>)
    requires dec.Valid() && start <= end <= tfRes.Length && tfRes as object != dec.buf
    modifies dec, tfRes
    ensures dec.Valid() && dec.error == old(dec.error) && |raw| == end - start && Flags(raw)
    ensures var r := TfFlags(old(dec.ops), raw, transient, budget);
            && dec.ops == old(dec.ops) + r.ops && changed == r.changed
            && tfRes[..] == Patched(old(tfRes[..]), start, r.res)
  {
    hide Run, BitOp, Dec.Decoder.Valid, Patched, TfFlags, TfStep;
    ghost var pre, orig := dec.ops, tfRes[..];
    DecoderTell(dec);
    var tell := EcTell(dec.nbitsTotal, dec.rng);
    var logp := if transient then 2 else 4;
    var curr, i := 0, start;
    changed, raw := 0, [];
    assert pre + [] == pre;
    PatchBounds(orig, start, []);
    TfFlagsEmpty(pre, transient, budget);
    ghost var r := TfFlags(pre, raw, transient, budget);
    while i < end
      invariant start <= i <= end && dec.Valid() && dec.error == old(dec.error)
      invariant |raw| == i - start && Flags(raw)
      invariant r == TfFlags(pre, raw, transient, budget) && dec.ops == pre + r.ops
      invariant curr == r.curr && changed == r.changed && tell == Run(dec.ops).Tell()
      invariant logp == TfLogp(i == start, transient)
      invariant tfRes[..] == Patched(orig, start, r.res)
    {
      ghost var r0 := r;
      if tell + logp <= budget {
        var bit := dec.BitLogp(logp);
        curr := if bit then 1 - curr else curr;
        DecoderTell(dec);
        tell := EcTell(dec.nbitsTotal, dec.rng);
        changed := if curr == 1 then 1 else changed;
      }
      PatchNext(orig, start, r0.res, curr);
      tfRes[i] := curr;
      TfStepCases(pre, r0, curr, logp, budget);
      r := TfStep(pre, r0, curr, logp, budget);
      TfFlagsNext(pre, raw, curr, transient, budget);
      raw := raw + [curr];
      logp := if transient then 4 else 5;
      i := i + 1;
    }
  }

  /** tf_decode(): whatever the packet, what is read is what some encoder would have coded. */
  method TfDecode(dec: Dec.Decoder, f: Frame, start: nat, end: nat, tfRes: array<int>)
    returns (ghost raw: seq<int>, ghost select: int)
    requires dec.Valid() && f.Usable() && start <= end <= tfRes.Length && tfRes as object != dec.buf
    modifies dec, tfRes
    ensures dec.Valid() && dec.error == old(dec.error) && |raw| == end - start && Flags(raw) && Flag(select)
    ensures var out := TfCode(old(dec.ops), raw, select, f, dec.storage);
            && dec.ops == old(dec.ops) + out.ops
            && tfRes[..] == Patched(old(tfRes[..]), start, out.tfRes)
  {
    hide Run, BitOp, Dec.Decoder.Valid, TfEntry, Patched, TfFlags, Resolved;
    ghost var pre, orig := dec.ops, tfRes[..];
    DecoderTell(dec);
    var budget := 8 * dec.storage;
    var tell := EcTell(dec.nbitsTotal, dec.rng);
    var reserved := f.lm > 0 && tell + (if f.transient then 2 else 4) + 1 <= budget;
    budget := budget - if reserved then 1 else 0;
    var changed;
    changed, raw := DecodeFlags(dec, f.transient, start, end, tfRes, budget);
    ghost var r := TfFlags(pre, raw, f.transient, budget);
    var tfSelect := 0;
    if reserved && TfEntry(f.lm, f.transient, 0, changed) != TfEntry(f.lm, f.transient, 1, changed) {
      var bit := dec.BitLogp(1);
      tfSelect := if bit then 1 else 0;
    }
    select := tfSelect;
    PatchBounds(orig, start, r.res);
    PatchTwice(orig, start, r.res, Resolved(r.res, f.lm, f.transient, tfSelect));
    TfResolve(f, start, end, tfRes, tfSelect);
  }

  // ---------------------------------------------------------------- band boosts

  /** The encoder's boost loop for one band. */
  method EncodeBand(enc: Enc.Encoder, want: int, b: Slot, tell: int) returns (j: nat, boost: nat, tell': int)
    requires enc.Valid() && SlotUsable(b) && b.size == enc.storage && tell == Tell8(Run(enc.ops))
    modifies enc, enc.buf
    ensures enc.Valid() && enc.storage == old(enc.storage) && tell' == Tell8(Run(enc.ops))
    ensures var r := BandCode(old(enc.ops), want, 0, b);
            enc.ops == old(enc.ops) + r.ops && j == r.count && boost == j * b.quanta
  {
    hide Run, BitOp, Enc.Encoder.Valid, Tell8, Log8;
    ghost var pre := enc.ops;
    var totalBits, totalBoost := 64 * enc.storage, b.total;
    var loopLogp := b.logp;
    j, boost, tell' := 0, 0, tell;
    assert pre + [] == pre;
    while tell' + 8 * loopLogp < totalBits - totalBoost && boost < b.cap
      invariant enc.Valid() && enc.storage == old(enc.storage) && tell' == Tell8(Run(enc.ops))
      invariant enc.ops == pre + Ones(j, b.logp) && loopLogp == BoostLogp(j, b.logp)
      invariant boost == j * b.quanta && totalBoost == b.total + boost
      invariant (j == 0 || j <= want) && forall i: nat :: i < j ==> CanBoost(pre, i, b)
      decreases b.cap - boost
    {
      var flag := j < want;
      enc.BitLogp(flag, loopLogp);
      EncoderTell(enc);
      tell' := EcTellFrac(enc.nbitsTotal, enc.rng);
      BoostProgress(j, b.quanta);
      if !flag {
        BandReach(pre, want, j, b);
        return;
      }
      boost := boost + b.quanta;
      totalBoost := totalBoost + b.quanta;
      loopLogp := 1;
      j := j + 1;
    }
    BandReach(pre, want, j, b);
  }

  /** The decoder's boost loop for one band. */
  method DecodeBand(dec: Dec.Decoder, b: Slot, tell: int) returns (j: nat, boost: nat, tell': int)
    requires dec.Valid() && SlotUsable(b) && b.size == dec.storage && tell == Tell8(Run(dec.ops))
    modifies dec
    ensures dec.Valid() && dec.error == old(dec.error) && tell' == Tell8(Run(dec.ops))
    ensures var r := BandCode(old(dec.ops), j, 0, b);
            dec.ops == old(dec.ops) + r.ops && j == r.count && boost == j * b.quanta
  {
    hide Run, BitOp, Dec.Decoder.Valid, Tell8, Log8;
    ghost var pre := dec.ops;
    var totalBits := 64 * dec.storage - b.total;
    var loopLogp := b.logp;
    j, boost, tell' := 0, 0, tell;
    assert pre + [] == pre;
    while tell' + 8 * loopLogp < totalBits && boost < b.cap
      invariant dec.Valid() && dec.error == old(dec.error) && tell' == Tell8(Run(dec.ops))
      invariant dec.ops == pre + Ones(j, b.logp) && loopLogp == BoostLogp(j, b.logp)
      invariant boost == j * b.quanta && totalBits == 64 * dec.storage - b.total - boost
      invariant forall i: nat :: i < j ==> CanBoost(pre, i, b)
      decreases b.cap - boost
    {
      var flag := dec.BitLogp(loopLogp);
      DecoderTell(dec);
      tell' := EcTellFrac(dec.nbitsTotal, dec.rng);
      BoostProgress(j, b.quanta);
      if !flag {
        BandReach(pre, j, j, b);
        return;
      }
      boost := boost + b.quanta;
      totalBits := totalBits - b.quanta;
      loopLogp := 1;
      j := j + 1;
    }
    BandReach(pre, j, j, b);
  }

  lemma BoostCodeEmpty(pre: seq<Op>, size: nat)
    ensures BoostCode(pre, [], [], size) == Boosts([], [], 0, 6)
  {
  }

  /** The encoder's loop over bands: offsets[] starts as what is wanted and ends as what was coded. */
  method EncodeBoosts(enc: Enc.Encoder, f: Frame, start: nat, end: nat, offsets: array<int>)
    returns (tell: int, totalBoost: nat)
    requires enc.Valid() && f.Usable() && start <= end <= offsets.Length && |f.limits| == end - start
    requires offsets as object != enc.buf
    modifies enc, enc.buf, offsets
    ensures enc.Valid() && enc.storage == old(enc.storage) && tell == Tell8(Run(enc.ops))
    ensures var r := BoostCode(old(enc.ops), old(offsets[start..end]), f.limits, enc.storage);
            && enc.ops == old(enc.ops) + r.ops && totalBoost == r.total
            && offsets[..] == Patched(old(offsets[..]), start, r.offsets)
  {
    hide Run, BandCode, Quanta, Enc.Encoder.Valid, Tell8, Log8, Patched, BoostCode;
    BoostCodeEmpty(enc.ops, enc.storage);
    ghost var pre, orig, wants := enc.ops, offsets[..], offsets[start..end];
    PatchBounds(orig, start, []);
    EncoderTell(enc);
    tell := EcTellFrac(enc.nbitsTotal, enc.rng);
    totalBoost := 0;
    var dynallocLogp, i := 6, start;
    ghost var r := BoostCode(pre, wants[..0], f.limits[..0], enc.storage);
    while i < end
      invariant start <= i <= end && enc.Valid() && enc.storage == old(enc.storage) && tell == Tell8(Run(enc.ops))
      invariant r == BoostCode(pre, wants[..i - start], f.limits[..i - start], enc.storage)
      invariant enc.ops == pre + r.ops && totalBoost == r.total && dynallocLogp == r.logp
      invariant offsets[..] == Patched(orig, start, r.offsets)
    {
      ghost var n := i - start;
      BoostNext(pre, wants[..n], wants[n], f.limits, enc.storage);
      assert wants[..n + 1] == wants[..n] + [wants[n]];
      PatchNext(orig, start, r.offsets, orig[i]);
      assert offsets[..][i] == wants[n];
      ghost var was := r.offsets;
      var limit := f.limits[i - start];
      var j, boost;
      j, boost, tell := EncodeBand(enc, offsets[i],
                                   Slot(dynallocLogp, limit.cap, Quanta(limit.width), enc.storage, totalBoost), tell);
      r := BoostStep(pre, r, wants[n], limit, enc.storage);
      totalBoost := totalBoost + boost;
      if j > 0 {
        dynallocLogp := if dynallocLogp - 1 > 2 then dynallocLogp - 1 else 2;
      }
      PatchNext(orig, start, was, boost);
      offsets[i] := boost;
      i := i + 1;
    }
    assert wants[..end - start] == wants && f.limits[..end - start] == f.limits;
  }

  method DecodeBoosts(dec: Dec.Decoder, f: Frame, start: nat, end: nat, offsets: array<int>)
    returns (tell: int, totalBits: int, ghost wants: seq<int>)
    requires dec.Valid() && f.Usable() && start <= end <= offsets.Length && |f.limits| == end - start
    requires offsets as object != dec.buf
    modifies dec, offsets
    ensures dec.Valid() && dec.error == old(dec.error) && tell == Tell8(Run(dec.ops)) && |wants| == end - start
    ensures var r := BoostCode(old(dec.ops), wants, f.limits, dec.storage);
            && dec.ops == old(dec.ops) + r.ops && totalBits == 64 * dec.storage - r.total
            && offsets[..] == Patched(old(offsets[..]), start, r.offsets)
  {
    hide Run, BandCode, Quanta, Dec.Decoder.Valid, Tell8, Log8, Patched, BoostCode;
    BoostCodeEmpty(dec.ops, dec.storage);
    ghost var pre, orig := dec.ops, offsets[..];
    PatchBounds(orig, start, []);
    DecoderTell(dec);
    tell := EcTellFrac(dec.nbitsTotal, dec.rng);
    totalBits := 64 * dec.storage;
    var dynallocLogp, i := 6, start;
    wants := [];
    ghost var r := BoostCode(pre, wants, f.limits[..0], dec.storage);
    while i < end
      invariant start <= i <= end && dec.Valid() && dec.error == old(dec.error) && tell == Tell8(Run(dec.ops))
      invariant |wants| == i - start && r == BoostCode(pre, wants, f.limits[..i - start], dec.storage)
      invariant dec.ops == pre + r.ops && totalBits == 64 * dec.storage - r.total && dynallocLogp == r.logp
      invariant offsets[..] == Patched(orig, start, r.offsets)
    {
      ghost var n := i - start;
      var limit := f.limits[i - start];
      var quanta := Quanta(limit.width);
      var j, boost;
      j, boost, tell := DecodeBand(dec, Slot(dynallocLogp, limit.cap, quanta, dec.storage,
                                             64 * dec.storage - totalBits), tell);
      BoostNext(pre, wants, j, f.limits, dec.storage);
      ghost var was := r.offsets;
      r := BoostStep(pre, r, j, limit, dec.storage);
      wants := wants + [j];
      totalBits := totalBits - boost;
      PatchNext(orig, start, was, boost);
      offsets[i] := boost;
      BoostSign(j, quanta);
      if boost > 0 {
        dynallocLogp := if dynallocLogp - 1 > 2 then dynallocLogp - 1 else 2;
      }
      i := i + 1;
    }
    assert f.limits[..end - start] == f.limits;
  }

  /** The decoder's test boost > 0 is the encoder's test j > 0. */
  lemma BoostSign(j: nat, quanta: nat)
    requires quanta > 0
    ensures j * quanta > 0 <==> j > 0
  {
    BoostProgress(j, quanta);
  }

  // ---------------------------------------------------------------- spread and trim

  method EncodeSpread(enc: Enc.Encoder, wanted: nat) returns (spread: nat)
    requires enc.Valid() && wanted < 4
    modifies enc, enc.buf
    ensures enc.Valid() && enc.storage == old(enc.storage)
    ensures var c := SpreadCode(old(enc.ops), wanted, enc.storage);
            enc.ops == old(enc.ops) + c.ops && spread == c.value
  {
    hide Run, Enc.Encoder.Valid, IcdfOp;
    EncoderTell(enc);
    IcdfsUsable();
    if EcTell(enc.nbitsTotal, enc.rng) + 4 <= 8 * enc.storage {
      enc.Icdf(wanted, SPREAD_ICDF, 5);
      spread := wanted;
    } else {
      spread := SPREAD_NORMAL;
    }
  }

  method DecodeSpread(dec: Dec.Decoder) returns (spread: nat)
    requires dec.Valid()
    modifies dec
    ensures dec.Valid() && dec.error == old(dec.error) && spread < 4
    ensures var c := SpreadCode(old(dec.ops), spread, dec.storage);
            dec.ops == old(dec.ops) + c.ops && spread == c.value
  {
    hide Run, Dec.Decoder.Valid, IcdfOp;
    DecoderTell(dec);
    IcdfsUsable();
    spread := SPREAD_NORMAL;
    if EcTell(dec.nbitsTotal, dec.rng) + 4 <= 8 * dec.storage {
      spread := dec.Icdf(SPREAD_ICDF, 5);
    }
  }

  method EncodeTrim(enc: Enc.Encoder, wanted: nat, tell: int, totalBoost: nat) returns (trim: nat, tell': int)
    requires enc.Valid() && wanted < 11 && tell == Tell8(Run(enc.ops))
    modifies enc, enc.buf
    ensures enc.Valid() && enc.storage == old(enc.storage) && tell' == Tell8(Run(enc.ops))
    ensures var c := TrimCode(old(enc.ops), wanted, enc.storage, totalBoost);
            enc.ops == old(enc.ops) + c.ops && trim == c.value
  {
    hide Run, Enc.Encoder.Valid, IcdfOp, Tell8, Log8;
    IcdfsUsable();
    trim, tell' := TRIM_DEFAULT, tell;
    if tell + 48 <= 64 * enc.storage - totalBoost {
      trim := wanted;
      enc.Icdf(trim, TRIM_ICDF, 7);
      EncoderTell(enc);
      tell' := EcTellFrac(enc.nbitsTotal, enc.rng);
    }
  }

  method DecodeTrim(dec: Dec.Decoder, tell: int, totalBits: int) returns (trim: nat)
    requires dec.Valid() && tell == Tell8(Run(dec.ops)) && totalBits <= 64 * dec.storage
    modifies dec
    ensures dec.Valid() && dec.error == old(dec.error) && trim < 11
    ensures var c := TrimCode(old(dec.ops), trim, dec.storage, 64 * dec.storage - totalBits);
            dec.ops == old(dec.ops) + c.ops && trim == c.value
  {
    hide Run, Dec.Decoder.Valid, IcdfOp, Tell8;
    IcdfsUsable();
    if tell + 48 <= totalBits {
      trim := dec.Icdf(TRIM_ICDF, 7);
    } else {
      trim := TRIM_DEFAULT;
    }
  }

  // ---------------------------------------------------------------- the whole section

  /** The calls from `pre` to `post`, and the results, are those of wish w. */
  ghost predicate Coded(pre: seq<Op>, w: Wish, f: Frame, size: nat, post: seq<Op>, side: Side) {
    && Wishes(w, f)
    && post == pre + SideCode(pre, w, f, size).ops
    && side == SideCode(pre, w, f, size).side
  }

  ghost function LeastSize(pre: seq<Op>, w: Wish, f: Frame, size: nat): (r: int)
    requires Wishes(w, f)
  {
    var r := SideCode(pre, w, f, size);
    MinAllowed(Tell8(Run(pre + r.ops)), r.total)
  }

  lemma CodedParts(pre: seq<Op>, w: Wish, f: Frame, size: nat)
    requires Wishes(w, f)
    ensures var tf := TfCode(pre, w.raw, w.select, f, size);
            var spread := SpreadCode(pre + tf.ops, w.spread, size);
            var boosts := BoostCode(pre + tf.ops + spread.ops, w.wants, f.limits, size);
            var trim := TrimCode(pre + tf.ops + spread.ops + boosts.ops, w.trim, size, boosts.total);
            var post := pre + tf.ops + spread.ops + boosts.ops + trim.ops;
            && Coded(pre, w, f, size, post, Side(tf.tfRes, spread.value, boosts.offsets, trim.value))
            && LeastSize(pre, w, f, size) == MinAllowed(Tell8(Run(post)), boosts.total)
  {
    hide Run, TfCode, SpreadCode, BoostCode, TrimCode, Tell8;
    var tf := TfCode(pre, w.raw, w.select, f, size);
    var spread := SpreadCode(pre + tf.ops, w.spread, size);
    var boosts := BoostCode(pre + tf.ops + spread.ops, w.wants, f.limits, size);
    var trim := TrimCode(pre + tf.ops + spread.ops + boosts.ops, w.trim, size, boosts.total);
    assert pre + tf.ops + spread.ops + boosts.ops + trim.ops == pre + SideCode(pre, w, f, size).ops;
  }

  /** The encoder's half; `least` is the smallest size it may still shrink the packet to. */
  method EncodeSide(enc: Enc.Encoder, f: Frame, start: nat, end: nat, tfRes: array<int>, tfSelect: int,
                    spreadWanted: nat, offsets: array<int>, trimWanted: nat)
    returns (spread: nat, trim: nat, least: int, ghost w: Wish)
    requires enc.Valid() && f.Usable() && start <= end && |f.limits| == end - start
    requires end <= tfRes.Length && end <= offsets.Length && Flags(tfRes[start..end])
    requires Flag(tfSelect) && spreadWanted < 4 && trimWanted < 11
    requires tfRes != offsets && tfRes as object != enc.buf && offsets as object != enc.buf
    modifies enc, enc.buf, tfRes, offsets
    ensures enc.Valid() && enc.storage == old(enc.storage)
    ensures w == Wish(old(tfRes[start..end]), tfSelect, spreadWanted, old(offsets[start..end]), trimWanted)
    ensures Coded(old(enc.ops), w, f, enc.storage, enc.ops, Side(tfRes[start..end], spread, offsets[start..end], trim))
    ensures least == LeastSize(old(enc.ops), w, f, enc.storage)
  {
    hide Run, Enc.Encoder.Valid, TfCode, SpreadCode, BoostCode, TrimCode, Tell8, TfEntry, Patched, Coded, LeastSize;
    w := Wish(tfRes[start..end], tfSelect, spreadWanted, offsets[start..end], trimWanted);
    CodedParts(enc.ops, w, f, enc.storage);
    ghost var pre, tf0, offsets0 := enc.ops, tfRes[..], offsets[..];
    TfEncode(enc, f, start, end, tfRes, tfSelect);
    PatchBounds(tf0, start, TfCode(pre, w.raw, w.select, f, enc.storage).tfRes);
    spread := EncodeSpread(enc, spreadWanted);
    ghost var pre2 := enc.ops;
    var tell, totalBoost := EncodeBoosts(enc, f, start, end, offsets);
    PatchBounds(offsets0, start, BoostCode(pre2, w.wants, f.limits, enc.storage).offsets);
    trim, tell := EncodeTrim(enc, trimWanted, tell, totalBoost);
    least := (tell + totalBoost + 63) / 64 + 2;
  }

  /** The decoder's half, over any packet: what it reads is what an encoder with some wish would have coded. */
  method DecodeSide(dec: Dec.Decoder, f: Frame, start: nat, end: nat, tfRes: array<int>, offsets: array<int>)
    returns (spread: nat, trim: nat, ghost w: Wish)
    requires dec.Valid() && f.Usable() && start <= end && |f.limits| == end - start
    requires end <= tfRes.Length && end <= offsets.Length
    requires tfRes != offsets && tfRes as object != dec.buf && offsets as object != dec.buf
    modifies dec, tfRes, offsets
    ensures dec.Valid() && dec.error == old(dec.error)
    ensures Coded(old(dec.ops), w, f, dec.storage, dec.ops, Side(tfRes[start..end], spread, offsets[start..end], trim))
  {
    hide Run, Dec.Decoder.Valid, TfCode, SpreadCode, BoostCode, TrimCode, Tell8, TfEntry, Patched, Coded, LeastSize;
    ghost var pre, tf0, offsets0 := dec.ops, tfRes[..], offsets[..];
    ghost var raw, select := TfDecode(dec, f, start, end, tfRes);
    PatchBounds(tf0, start, TfCode(pre, raw, select, f, dec.storage).tfRes);
    spread := DecodeSpread(dec);
    var tell, totalBits;
    ghost var wants, pre2 := [], dec.ops;
    tell, totalBits, wants := DecodeBoosts(dec, f, start, end, offsets);
    PatchBounds(offsets0, start, BoostCode(pre2, wants, f.limits, dec.storage).offsets);
    trim := DecodeTrim(dec, tell, totalBits);
    w := Wish(raw, select, spread, wants, trim);
    CodedParts(pre, w, f, dec.storage);
  }
}
