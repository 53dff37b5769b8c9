/** The range encoder, celt/entenc.c. */
module EntEnc {
  import opened Arith
  import opened CarryChain
  import opened Flush
  import opened RangeModel

  const CODE_SHIFT_UNIT: nat := 0x80_0000  // 1 << EC_CODE_SHIFT
  const WINDOW_SIZE: nat := 32

  class Encoder {
    const buf: array<byte>
    var storage: nat
    var endOffs: nat
    var endWindow: nat
    var nendBits: nat
    var nbitsTotal: int
    var offs: nat
    var rng: nat
    var val: nat
    var ext: nat
    var rem: int
    var error: int
    /** Every call made so far, and the bytes at both ends of the buffer. */
    ghost var ops: seq<Op>
    ghost var front: seq<byte>
    ghost var back: seq<byte>

    /** The front bytes grow upwards, the back bytes downwards, and they never overlap. */
    ghost predicate Stored()
      reads this`offs, this`front, this`storage, this`endOffs, this`back, buf
    {
      && offs + endOffs <= storage <= buf.Length
      && |front| == offs && |back| == endOffs
      && buf[..offs] == front && buf[storage - endOffs..storage] == back
    }

    /** val and rng fit their registers, and a carry can only hit a buffered byte below 255. */
    ghost predicate RangeOf(s: State)
      reads this`rng, this`val, this`rem, this`nbitsTotal
    {
      && rng == s.rng && 0 < rng <= CODE_TOP
      && val + rng < 2 * CODE_TOP
      && -1 <= rem <= 255
      && (rem == -1 || rem == 255 ==> val + rng <= CODE_TOP)
      && nbitsTotal == s.NbitsTotal()
    }

    /** The digits so far followed by register v are exactly the unbounded low end. */
    ghost predicate LowOf(n: nat, low: nat, v: nat)
      requires -1 <= rem <= 255
      reads this`rem, this`front, this`ext
    {
      var d := Digits(front, rem, ext);
      |d| == n && low == Big(d) * CODE_TOP + v
    }

    ghost predicate Window()
      reads this`nendBits, this`endWindow
    {
      nendBits <= WINDOW_SIZE && endWindow < Pow2(nendBits)
    }

    /** No write has failed while the whole bytes produced so far fit the packet. */
    ghost predicate Roomy(s: State)
      reads this`error, this`storage
    {
      s.n + s.bits / 8 <= storage ==> error == 0
    }

    /** Everything the fields say about a state s; contents are promised only while no write has failed. */
    ghost predicate Represents(s: State)
      reads this
    {
      && RangeOf(s) && Window() && Roomy(s)
      && (error == 0 ==> LowOf(s.n, s.low, val) && RawAt(back, endWindow, nendBits, s))
    }

    ghost predicate Valid()
      reads this, buf
    {
      Represents(Run(ops)) && Stored()
    }

    constructor (b: array<byte>, size: nat)
      requires size <= b.Length
      ensures buf == b && storage == size && Valid() && ops == [] && error == 0
    {
      buf := b;
      storage, endOffs, endWindow, nendBits := size, 0, 0, 0;
      nbitsTotal := 33;
      offs, rng, rem, val, ext, error := 0, CODE_TOP, -1, 0, 0, 0;
      ops, front, back := [], [], [];
    }

    method WriteByte(value: byte) returns (status: int)
      requires Stored()
      modifies this`offs, this`front, buf
      ensures Stored()
      ensures if old(offs) + endOffs < storage
              then status == 0 && front == old(front) + [value]
              else status == -1 && front == old(front)
    {
      if offs + endOffs >= storage {
        return -1;
      }
      buf[offs] := value;
      offs := offs + 1;
      front := front + [value];
      return 0;
    }

    method WriteByteAtEnd(value: byte) returns (status: int)
      requires Stored()
      modifies this`endOffs, this`back, buf
      ensures Stored()
      ensures if offs + old(endOffs) < storage
              then status == 0 && back == [value] + old(back)
              else status == -1 && back == old(back)
    {
      if offs + endOffs >= storage {
        return -1;
      }
      endOffs := endOffs + 1;
      buf[storage - endOffs] := value;
      back := [value] + back;
      return 0;
    }

    /** error |= status, for a status of 0 or -1. */
    method Note(status: int)
      requires status == 0 || status == -1
      modifies this`error
      ensures error == 0 <==> old(error) == 0 && status == 0
    {
      if status != 0 {
        error := status;
      }
    }

    /** error |= ec_write_byte(value) */
    method PutByte(value: byte)
      requires Stored()
      modifies this`offs, this`front, this`error, buf
      ensures Stored()
      ensures error == 0 <==> old(error) == 0 && old(offs) + endOffs < storage
      ensures error == 0 ==> front == old(front) + [value]
    {
      var status := WriteByte(value);
      Note(status);
    }

    /** The inner loop of ec_enc_carry_out(): one symbol for every outstanding 255. */
    method WriteRun(sym: byte)
      requires Stored()
      modifies this`offs, this`front, this`ext, this`error, buf
      ensures Stored() && ext == 0
      ensures error == 0 <==> old(error) == 0 && (old(ext) == 0 || old(offs + ext) + endOffs <= storage)
      ensures error == 0 ==> front == old(front) + Rep(sym, old(ext))
    {
      hide Rep;
      ghost var done, f, ok, room := 0, front, error == 0, storage - endOffs;
      RepZero(sym);
      while ext > 0
        invariant Stored() && done + ext == old(ext)
        invariant error == 0 <==> ok && |f| + done <= room
        invariant error == 0 ==> front == f + Rep(sym, done)
      {
        RepAppend(f, sym, done);
        PutByte(sym);
        ext := ext - 1;
        done := done + 1;
      }
    }

    /** The flush branch of ec_enc_carry_out(). */
    method FlushBuffered(carry: nat)
      requires Stored() && CarryFits(rem, 256 * carry)
      modifies this`offs, this`front, this`ext, this`error, buf
      ensures Stored() && ext == 0
      ensures error == 0 <==>
              old(error) == 0 && old(offs) + |Flushed(rem, old(ext), carry)| + endOffs <= storage
      ensures error == 0 ==> front == old(front) + Flushed(rem, old(ext), carry)
    {
      hide Rep;
      RepZero((255 + carry) % 256);
      if rem >= 0 {
        PutByte(rem + carry);
      }
      if ext > 0 {
        WriteRun((255 + carry) % 256);
      }
    }

    method CarryOut(c: nat)
      requires Stored() && CarryFits(rem, c)
      modifies this`offs, this`front, this`ext, this`rem, this`error, buf
      ensures Stored()
      ensures rem == NextRem(old(rem), c) && ext == NextExt(old(ext), c)
      ensures error == 0 <==>
              old(error) == 0 && old(offs) + |Released(old(rem), old(ext), c)| + endOffs <= storage
      ensures error == 0 ==> front == old(front) + Released(old(rem), old(ext), c)
    {
      if c != 255 {
        ReleasedByCarry(rem, ext, c);
        FlushBuffered(c / 256);
        rem := c % 256;
      } else {
        ext := ext + 1;
      }
    }

    /** Hand out the top symbol of register v and shift it, as the renormalisation and flush loops both do. */
    method PutSymbol(v: nat, ghost n: nat, ghost low: nat) returns (v': nat)
      requires Stored() && CarryFits(rem, v / CODE_SHIFT_UNIT)
      requires error == 0 ==> LowOf(n, low, v)
      modifies this`offs, this`front, this`ext, this`rem, this`error, buf
      ensures Stored() && v' == v * 256 % CODE_TOP
      ensures rem == NextRem(old(rem), v / CODE_SHIFT_UNIT) && ext == NextExt(old(ext), v / CODE_SHIFT_UNIT)
      ensures error == 0 <==> old(error) == 0
                              && old(offs) + |Released(old(rem), old(ext), v / CODE_SHIFT_UNIT)| + endOffs <= storage
      ensures error == 0 ==> LowOf(n + 1, low * 256, v')
    {
      var c := v / CODE_SHIFT_UNIT;
      v' := v * 256 % CODE_TOP;
      if error == 0 {
        ShiftLow(front, rem, ext, v, c, v', low);
      }
      CarryOut(c);
    }

    /** What one symbol releases fits wherever the bytes of the next state fit. */
    lemma ShiftFits(s: State, c: nat)
      requires Represents(s) && Stored() && error == 0 && CarryFits(rem, c)
      ensures offs + |Released(rem, ext, c)| + endOffs <= s.n + s.bits / 8
      ensures RawAt(back, endWindow, nendBits, Shift(s))
    {
      hide Big, Pow2, Released, Tail, AboveBytes, Digits;
    }

    /** The body of the renormalisation loop. */
    method ShiftOut(ghost s: State)
      requires Stored() && Represents(s) && rng <= CODE_BOT
      modifies this`offs, this`front, this`ext, this`rem, this`error, this`val, this`rng, this`nbitsTotal, buf
      ensures Stored() && Represents(Shift(s))
      ensures error == 0 ==> old(error) == 0
    {
      hide Pow2, Released, RawAt, LowOf, Stored;
      ShiftKeepsRoom(val, rng, rem, val / CODE_SHIFT_UNIT, val * 256 % CODE_TOP);
      if error == 0 {
        ShiftFits(s, val / CODE_SHIFT_UNIT);
      }
      val := PutSymbol(val, s.n, s.low);
      rng := rng * 256;
      nbitsTotal := nbitsTotal + 8;
    }

    method Normalize(ghost s: State)
      requires Stored() && Represents(s)
      modifies this`offs, this`front, this`ext, this`rem, this`error, this`val, this`rng, this`nbitsTotal, buf
      ensures Stored() && Represents(RangeModel.Normalize(s))
      ensures error == 0 ==> old(error) == 0
    {
      ghost var t := s;
      while rng <= CODE_BOT
        invariant Stored() && Represents(t) && RangeModel.Normalize(t) == RangeModel.Normalize(s)
        invariant error == 0 ==> old(error) == 0
        decreases CODE_TOP - rng
      {
        ShiftOut(t);
        t := Shift(t);
      }
    }

    method Enter(off: nat, size: nat, ghost s: State)
      requires Represents(s) && 0 < size && off + size <= rng
      modifies this`val, this`rng
      ensures Represents(s.(low := s.low + off, rng := size))
    {
      val := val + off;
      rng := size;
    }

    /** How every symbol coder ends: step `off` into the interval, keep `size` values of it, renormalise. */
    method Take(off: nat, size: nat, ghost fl: nat, ghost fh: nat, ghost ft: nat)
      requires Valid() && fl < fh <= ft <= CODE_BOT
      requires off == Bound(rng, fl, ft) && off + size == Bound(rng, fh, ft)
      modifies this`offs, this`front, this`ext, this`rem, this`error, this`val, this`rng, this`nbitsTotal, this`ops, buf
      ensures Valid() && ops == old(ops) + [Freq(fl, fh, ft)] && storage == old(storage)
      ensures error == 0 ==> old(error) == 0
    {
      hide Bound, Run, RawAt;
      ghost var s := Narrow(Run(ops), fl, fh, ft);
      assert s == Run(ops).(low := Run(ops).low + off, rng := size);
      BoundOrder(rng, fl, fh, ft);
      Enter(off, size, Run(ops));
      RunAppend(ops, Freq(fl, fh, ft));
      ops := ops + [Freq(fl, fh, ft)];
      assert Run(ops) == RangeModel.Normalize(s);
      Normalize(s);
    }

    method Encode(fl: nat, fh: nat, ft: nat)
      requires Valid() && fl < fh <= ft <= CODE_BOT
      modifies this, buf
      ensures Valid() && ops == old(ops) + [Freq(fl, fh, ft)] && storage == old(storage)
      ensures error == 0 ==> old(error) == 0
    {
      NarrowFields(rng, fl, fh, ft);
      var r := rng / ft;
      if fl > 0 {
        Take(rng - r * (ft - fl), r * (fh - fl), fl, fh, ft);
      } else {
        Take(0, rng - r * (ft - fh), fl, fh, ft);
      }
    }

    method EncodeBin(fl: nat, fh: nat, bits: nat)
      requires Valid() && bits <= 23 && fl < fh <= Pow2(bits)
      modifies this, buf
      ensures Valid() && ops == old(ops) + [Freq(fl, fh, Total(bits))] && storage == old(storage)
      ensures error == 0 ==> old(error) == 0
    {
      var ft := Total(bits);
      NarrowFields(rng, fl, fh, ft);
      var r := rng / ft;  // rng >> bits
      if fl > 0 {
        Take(rng - r * (ft - fl), r * (fh - fl), fl, fh, ft);
      } else {
        Take(0, rng - r * (ft - fh), fl, fh, ft);
      }
    }

    /** A bit whose one has probability 2^-logp. */
    method BitLogp(bit: bool, logp: nat)
      requires Valid() && 1 <= logp <= 23
      modifies this, buf
      ensures Valid() && ops == old(ops) + [BitOp(bit, logp)] && storage == old(storage)
      ensures error == 0 ==> old(error) == 0
    {
      BitFields(rng, bit, logp);
      var s := rng / Total(logp);  // rng >> logp
      var r := rng - s;
      if bit {
        Take(r, s, Total(logp) - 1, Total(logp), Total(logp));
      } else {
        Take(0, r, 0, Total(logp) - 1, Total(logp));
      }
    }

    /** Symbol k of an inverse cumulative table whose total is 2^ftb (ec_enc_icdf and ec_enc_icdf16). */
    method Icdf(k: nat, icdf: seq<nat>, ftb: nat)
      requires Valid() && IcdfTable(icdf, ftb) && IcdfCodes(icdf, k, ftb)
      modifies this, buf
      ensures Valid() && ops == old(ops) + [IcdfOp(k, icdf, ftb)] && storage == old(storage)
      ensures error == 0 ==> old(error) == 0
    {
      var op := IcdfOp(k, icdf, ftb);
      NarrowFields(rng, op.fl, op.fh, op.ft);
      var r := rng / Total(ftb);  // rng >> ftb
      if k > 0 {
        Take(rng - r * icdf[k - 1], r * (icdf[k - 1] - icdf[k]), op.fl, op.fh, op.ft);
      } else {
        Take(0, rng - r * icdf[0], op.fl, op.fh, op.ft);
      }
    }

    /** One byte of the window goes to the back of the buffer: the body of both raw-bit loops. */
    method FlushByte(window: nat, used: nat, ghost s: State) returns (window': nat, used': nat)
      requires Stored() && used >= 8 && window < Pow2(used)
      requires error == 0 ==> RawAt(back, window, used, s)
      modifies this`endOffs, this`back, this`error, buf
      ensures Stored() && used' == used - 8 && window' < Pow2(used')
      ensures error == 0 <==> old(error) == 0 && offs + old(endOffs) + 1 <= storage
      ensures error == 0 ==> RawAt(back, window', used', s) && endOffs == old(endOffs) + 1
    {
      RawByte(back, window, used, s);
      var status := WriteByteAtEnd(window % 256);
      Note(status);
      window', used' := window / 256, used - 8;
    }

    /** Write whole bytes of the window while there are any. */
    method Drain(window: nat, used: nat, ghost s: State) returns (window': nat, used': nat)
      requires Stored() && window < Pow2(used)
      requires error == 0 ==> RawAt(back, window, used, s)
      modifies this`endOffs, this`back, this`error, buf
      ensures Stored() && used' == used % 8 && window' < Pow2(used')
      ensures error == 0 <==> old(error) == 0 && offs + old(endOffs) + used / 8 <= storage
      ensures error == 0 ==> RawAt(back, window', used', s)
    {
      window', used' := window, used;
      ghost var i := 0;
      while used' >= 8
        invariant Stored() && used == used' + 8 * i && window' < Pow2(used')
        invariant error == 0 <==> old(error) == 0 && offs + old(endOffs) + i <= storage
        invariant error == 0 ==> RawAt(back, window', used', s) && endOffs == old(endOffs) + i
      {
        window', used' := FlushByte(window', used', s);
        i := i + 1;
      }
    }

    /** ec_enc_bits(): k raw bits for the end of the packet. */
    method RawBits(v: nat, k: nat)
      requires Valid() && 1 <= k <= 25 && v < Pow2(k)
      modifies this, buf
      ensures Valid() && ops == old(ops) + [Bits(v, k)] && storage == old(storage)
      ensures error == 0 ==> old(error) == 0
    {
      ghost var s := Run(ops);
      var window, used := endWindow, nendBits;
      if used + k > WINDOW_SIZE {
        window, used := Drain(window, used, s);
      }
      AppendRaw(window, used, v, k);
    }

    method AppendRaw(window: nat, used: nat, v: nat, k: nat)
      requires Stored() && used + k <= WINDOW_SIZE && window < Pow2(used)
      requires 1 <= k <= 25 && v < Pow2(k)
      requires RangeOf(Run(ops)) && Roomy(Step(Run(ops), Bits(v, k)))
      requires error == 0 ==> LowOf(Run(ops).n, Run(ops).low, val) && RawAt(back, window, used, Run(ops))
      modifies this`endWindow, this`nendBits, this`nbitsTotal, this`ops
      ensures Valid() && ops == old(ops) + [Bits(v, k)]
    {
      hide Run, RawAt, Or, Pow2;
      ghost var s := Run(ops);
      RawStep(back, window, used, s, v, k);
      RunAppend(ops, Bits(v, k));
      ops := ops + [Bits(v, k)];
      assert Run(ops).low == s.low && Run(ops).n == s.n && Run(ops).rng == s.rng && Run(ops).bits == s.bits + k;
      endWindow := Or(window, v * Pow2(used));
      nendBits := used + k;
      nbitsTotal := nbitsTotal + k;
    }

    /** A value of an alphabet of any 32-bit size: high bits range coded, low bits raw. */
    method Uint(fl: nat, ft: nat)
      requires Valid() && 1 < ft < 0x1_0000_0000 && fl < ft
      modifies this, buf
      ensures Valid() && ops == old(ops) + UintOps(fl, ft) && storage == old(storage)
      ensures error == 0 ==> old(error) == 0
    {
      hide Valid, Run, Pow2, ILog;
      UintSplit(fl, ft);
      var ftb := ILog(ft - 1);
      if ftb > 8 {
        ftb := ftb - 8;
        var ft' := (ft - 1) / Pow2(ftb) + 1;
        var fl' := fl / Pow2(ftb);
        Encode(fl', fl' + 1, ft');
        RawBits(fl % Pow2(ftb), ftb);
      } else {
        Encode(fl, fl + 1, ft);
      }
    }

    /** ec_enc_shrink(): the raw bytes move down so that the packet ends at `size`. */
    method Shrink(size: nat)
      requires Valid() && offs + endOffs <= size <= storage
      modifies this`storage, buf
      ensures Valid() && storage == size
    {
      hide Run, RangeOf, Window, LowOf, RawAt;
      MoveBack(size);
    }

    /** OPUS_MOVE of the raw bytes. */
    method MoveBack(size: nat)
      requires Stored() && offs + endOffs <= size <= storage
      modifies this`storage, buf
      ensures Stored() && storage == size
    {
      var moved := buf[storage - endOffs..storage];
      forall i | 0 <= i < endOffs {
        buf[size - endOffs + i] := moved[i];
      }
      assert buf[size - endOffs..size] == moved;
      storage := size;
    }

    /** The code point ec_enc_done() picks, and how many bits of it are written. */
    method ChoosePoint() returns (l: nat, end: nat)
      requires CODE_BOT < rng <= CODE_TOP
      ensures l == FlushLen(val, rng) && end == RoundUp(val, l)
    {
      hide Or, Pow2, ILog, RoundUp, ClearMask;
      ghost var shortest := Shortest(rng);
      l := 32 - ILog(rng);
      assert l == shortest;
      var msk := (CODE_TOP - 1) / Pow2(l);
      end := ClearMask(val, msk);
      PointMask(val, l, msk);
      assert end == RoundUp(val, l);
      if Or(end, msk) >= val + rng {
        assert !Covers(val, rng, l);
        l := l + 1;
        msk := msk / 2;
        end := ClearMask(val, msk);
      }
    }

    /**
     * Write l bits of the code point, then everything still pending. `left` is minus the unused bits of the last
     * byte.
     */
    method WritePoint(l: nat, point: nat, ghost n: nat, ghost e: nat) returns (left: int, ghost j: nat)
      requires Stored() && -1 <= rem <= 255 && l <= 9
      requires point < 2 * CODE_TOP && (rem == -1 || rem == 255 ==> point < CODE_TOP)
      requires if l > 0 then point % Pow2(31 - l) == 0 else point == 0
      requires error == 0 ==> LowOf(n, e, point)
      modifies this`offs, this`front, this`ext, this`rem, this`error, buf
      ensures Stored() && left == l - 8 * j && -8 < left <= 0
      ensures error == 0 <==> old(error) == 0 && n + j + endOffs <= storage
      ensures error == 0 ==> |front| == n + j && Big(front) * CODE_TOP == Deeper(e, j)
    {
      hide Big, Pow2, Released, Rep, Digits;
      left, j := l, 0;
      var end: nat := point;
      while left > 0
        invariant Stored() && -1 <= rem <= 255 && left == l - 8 * j && -8 < left
        invariant end < 2 * CODE_TOP && (rem == -1 || rem == 255 ==> end < CODE_TOP)
        invariant if left > 0 then end % Pow2(31 - left) == 0 else end == 0
        invariant error == 0 <==> old(error) == 0 && n + j - |Buffered(rem)| - ext + endOffs <= storage
        invariant error == 0 ==> LowOf(n + j, Deeper(e, j), end)
      {
        AlignShift(end, 31 - left);
        end := PutSymbol(end, n + j, Deeper(e, j));
        left := left - 8;
        j := j + 1;
      }
      ReleasePending(n + j, Deeper(e, j));
    }

    /** Once the point is written, everything still pending goes out. */
    method ReleasePending(ghost n: nat, ghost e: nat)
      requires Stored() && -1 <= rem <= 255 && (error == 0 ==> LowOf(n, e, 0))
      modifies this`offs, this`front, this`ext, this`rem, this`error, buf
      ensures Stored()
      ensures error == 0 <==> old(error) == 0 && old(offs + |Buffered(rem)| + ext) + endOffs <= storage
      ensures error == 0 ==> |front| == n && Big(front) * CODE_TOP == e
    {
      hide Big, Released, Rep;
      ReleaseAll(front, rem, ext);
      ReleasedCount(rem, ext);
      if rem >= 0 || ext > 0 {
        CarryOut(0);
      }
    }

    lemma ReleasedCount(r: int, x: nat)
      requires -1 <= r <= 255
      ensures CarryFits(r, 0) && |Released(r, x, 0)| == |Buffered(r)| + x && (r == -1 <==> |Buffered(r)| == 0)
    {
    }

    /** buf[i] |= (unsigned char)bits */
    method OrInto(i: nat, bits: nat)
      requires i < storage <= buf.Length && bits < 256
      modifies buf
      ensures buf[..storage] == old(buf[..storage])[i := Or(old(buf[i]), bits)]
    {
      hide Or;
      OrByte(buf[i], bits);
      buf[i] := Or(buf[i], bits);
    }

    /** The last raw bits go into the byte before the back bytes, as far as it is free. */
    method AddWindow(window: nat, used: nat, left: int)
      requires Stored() && error == 0 && 0 < used < 8 && window < Pow2(used) && -8 < left <= 0
      requires endOffs < storage && buf[..storage] == front + Zeros(storage - offs - endOffs) + back
      modifies buf, this`error
      ensures error == 0 <==> offs + endOffs < storage || used <= -left
      ensures var z := storage - offs - endOffs;
              buf[..storage] == Packet(front, z, back, Extra(window, used, -left, z))
    {
      hide Packet, Extra, Or, Pow2, Zeros;
      ghost var z := storage - offs - endOffs;
      var bits := window;
      if offs + endOffs >= storage && -left < used {
        bits := bits % Pow2(-left);
        error := -1;
      }
      ExtraCases(window, used, -left, z);
      PacketInPlace(front, z, back, bits);
      OrInto(storage - endOffs - 1, bits);
    }

    /** Clear the unused middle and add the last raw bits to the byte before the back bytes. */
    method Seal(window: nat, used: nat, left: int)
      requires Stored() && error == 0 && used < 8 && window < Pow2(used) && -8 < left <= 0
      modifies buf, this`error
      ensures error == 0 <==>
              (used > 0 ==> endOffs < storage && (offs + endOffs < storage || used <= -left))
      ensures var z := storage - offs - endOffs;
              && (used == 0 ==> buf[..storage] == Packet(front, z, back, 0))
              && (used > 0 && offs + z > 0 ==>
                    buf[..storage] == Packet(front, z, back, Extra(window, used, -left, z)))
    {
      hide Packet, Extra, Pow2, Zeros;
      Clear();
      if used > 0 {
        if endOffs >= storage {
          error := -1;
        } else {
          AddWindow(window, used, left);
        }
      } else {
        PacketPlain(front, storage - offs - endOffs, back);
      }
    }

    /** OPUS_CLEAR of the space between the two ends. */
    method Clear()
      requires Stored()
      modifies buf
      ensures Stored() && buf[..storage] == front + Zeros(storage - offs - endOffs) + back
    {
      forall i | offs <= i < storage - endOffs {
        buf[i] := 0;
      }
      assert buf[..offs] == front;
      assert buf[offs..storage - endOffs] == Zeros(storage - offs - endOffs);
      assert buf[storage - endOffs..storage] == back;
    }

    method PickPoint(ghost s: State) returns (l: nat, end: nat, ghost e: nat)
      requires RangeOf(s) && CODE_BOT < rng && (error == 0 ==> LowOf(s.n, s.low, val))
      ensures l == FlushLen(val, rng) && end < 2 * CODE_TOP && (rem == -1 || rem == 255 ==> end < CODE_TOP)
      ensures if l > 0 then end % Pow2(31 - l) == 0 else end == 0
      ensures error == 0 ==> LowOf(s.n, e, end) && PointIn(s, e, l)
    {
      hide RoundUp, FlushLen, PointIn;
      PointRegister(val, rng);
      l, end := ChoosePoint();
      e := Big(Digits(front, rem, ext)) * CODE_TOP + end;
      if error == 0 {
        PointChosen(val, rng, s, Big(Digits(front, rem, ext)));
      }
    }

    /** The first half of ec_enc_done(): the range-coded bytes. */
    method FlushRange(ghost s: State) returns (left: int, ghost l: nat, ghost j: nat, ghost e: nat)
      requires Stored() && Represents(s) && CODE_BOT < rng
      modifies this`offs, this`front, this`ext, this`rem, this`error, buf
      ensures Stored() && l == FlushLen(val, rng) && left == l - 8 * j && -8 < left <= 0
      ensures error == 0 <==> old(error) == 0 && s.n + j + endOffs <= storage
      ensures error == 0 ==> Spelled(front, s, e, j) && PointIn(s, e, l)
    {
      var len, point;
      len, point, e := PickPoint(s);
      l := len;
      left, j := WritePoint(len, point, s.n, e);
    }

    /** The second half: the raw bytes, the cleared middle and the shared byte. */
    method FlushRaw(left: int, ghost s: State, ghost l: nat, ghost j: nat, ghost e: nat)
      requires Stored() && Window() && left == l - 8 * j && -8 < left <= 0
      requires error == 0 ==>
                 Spelled(front, s, e, j) && PointIn(s, e, l) && RawAt(back, endWindow, nendBits, s)
      modifies this`endOffs, this`back, this`error, buf
      ensures error == 0 ==> old(error) == 0
      ensures old(error) == 0 ==>
                Sealed(s, buf[..storage], offs, -left, error == 0)
    {
      hide PointIn, Sealed, FitsBytes, Spelled, Tail, AboveBytes, Pow2;
      var window, used := Drain(endWindow, nendBits, s);
      if error == 0 {
        SealRaw(window, used, left, s, l, j, e);
      } else {
        SealedOverflow(s, buf[..storage], offs, -left);
      }
    }

    method SealRaw(window: nat, used: nat, left: int, ghost s: State, ghost l: nat, ghost j: nat, ghost e: nat)
      requires Stored() && error == 0 && left == l - 8 * j && -8 < left <= 0
      requires Spelled(front, s, e, j) && PointIn(s, e, l)
      requires used < 8 && window < Pow2(used) && RawAt(back, window, used, s)
      modifies this`error, buf
      ensures Sealed(s, buf[..storage], offs, -left, error == 0)
    {
      hide Packet, Extra, PointIn, Sealed, Spelled, RawAt, Pow2;
      ghost var f, b := front, back;
      Seal(window, used, left);
      ExtraCases(window, used, -left, storage - offs - endOffs);
      assert -left == 8 * j - l && |f| == offs;
      SealedPacket(f, buf[..storage], b, window, used, s, e, j, l, error == 0);
    }

    /** While no write has failed, the register says how much the flush of the unbounded low end takes. */
    lemma LengthOfLow(s: State)
      requires RangeOf(s) && CODE_BOT < rng && (error == 0 ==> LowOf(s.n, s.low, val))
      ensures error == 0 ==> FlushLen(s.low, s.rng) == FlushLen(val, rng)
    {
      hide FlushLen;
      if error == 0 {
        FlushLenRegister(Big(Digits(front, rem, ext)), val, rng);
      }
    }

    /**
     * ec_enc_done(). It fails exactly when the range bits and the raw bits do not fit the packet, and
     * otherwise leaves a packet that carries every call made. Even when only the last raw bits are lost, the
     * range-coded part survives.
     */
    method Done()
      requires Valid()
      modifies this, buf
      ensures storage == old(storage)
      ensures error == 0 <==> FlushedBits(Run(old(ops))) <= 8 * storage
      ensures error == 0 ==> Holds(Run(old(ops)), buf[..storage])
      ensures RangeFits(Run(old(ops)), storage) ==> InInterval(Run(old(ops)), buf[..storage])
    {
      hide Run, Holds, InInterval, FlushLen, PointIn, Spelled, LowOf, Pow2, Tail, AboveBytes;
      ghost var s := Run(ops);
      LengthOfLow(s);
      var left, l, j, e := FlushRange(s);
      FitsInBits(s.n, j, l, s.bits, storage);
      FlushRaw(left, s, l, j, e);
    }
  }
}
