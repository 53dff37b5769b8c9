/** A whole frame through a packet that the encoder shrinks on the way. */
module SidePacket {
  import opened Arith
  import opened RangeModel
  import opened RoundTrip
  import opened SideInfo
  import opened SideAgreement
  import opened SideCoder
  import opened TellFrac
  import Enc = EntEnc
  import Dec = EntDec
  import Flush

  // ---------------------------------------------------------------- the size the encoder settles on

  /**
   * The packet is first capped, then brought to the target but not below `least` or `floor` (the minimum of a
   * hybrid frame) unless the cap is lower, then raised by what an underfull reservoir adds. The cap comes before
   * the minimum and is never compared with it, so the minimum is kept exactly when the cap allows it.
   */
  function ShrunkSize(target: int, adjust: nat, least: int, floor: int, cap: nat, size: nat): (size': int)
    ensures MayShrink(size', size, least) <==> cap >= size || cap >= least
  {
    var capped := Min(size, cap);
    var available := Min(capped, Max(Max(least, floor), target)) + adjust;
    Min(capped, available)
  }

  function Distance(a: int, b: int): (d: nat) {
    Abs(a - b)
  }

  /**
   * Without a deficit to make up, no size between the minimum and the cap is nearer to the target. A deficit is
   * added on top, as far as the cap allows.
   */
  lemma ShrunkNearest(target: int, adjust: nat, least: int, floor: int, cap: nat, size: nat)
    ensures var hi := Min(size, cap);
            var lo := Min(hi, Max(least, floor));
            var size' := ShrunkSize(target, 0, least, floor, cap, size);
            && lo <= size' <= hi && (forall p :: lo <= p <= hi ==> Distance(size', target) <= Distance(p, target))
            && ShrunkSize(target, adjust, least, floor, cap, size) == Min(hi, size' + adjust)
  {
  }

  /** The formula alone: with the cap of a 2.5 ms frame, 1275 / 8 bytes, a minimum of 200 is not kept. */
  lemma CapBelowLeast()
    ensures ShrunkSize(0, 0, 200, 0, 1275 / 8, 1275) == 159 && !MayShrink(159, 1275, 200)
  {
  }

  /** Length bytes of a padding of n bytes: each one stands for up to 254. */
  function LengthBytes(n: nat): (r: nat)
    ensures n <= 254 * r < n + 254
  {
    (n + 253) / 254
  }

  /** The bytes an extension gets: what it wants, or what is left above the minimum; none if that is little. */
  function Extension(want: nat, least: int, size: int): (e: nat)
    ensures e == 0 || 20 < e <= want
    ensures 0 < e < want ==> size - e - LengthBytes(want) - 1 == least
    ensures e == 0 <==> want <= 20 || size <= least + LengthBytes(want) + 21
  {
    var extension := Min(want, size - least - LengthBytes(want) - 1);
    if extension > 20 then extension else 0
  }

  /**
   * The second shrink makes room for an extension of up to `want` bytes and its length bytes. It happens only
   * where more than 20 bytes are left above the minimum, and so, unlike the first, can never go below it.
   */
  function ExtendedSize(want: nat, least: int, size: int): (size': int)
    ensures size' == size || least <= size' < size - 20
    ensures var e := Extension(want, least, size);
            size == size' + if e == 0 then 0 else e + LengthBytes(e) + 1
  {
    var e := Extension(want, least, size);
    if e > 0 then size - e - LengthBytes(e) - 1 else size
  }

  /** What the rate control and the extension ask for. */
  datatype Rate = Rate(target: int, adjust: nat, floor: int, cap: nat, extension: nat)

  function FinalSize(rate: Rate, least: int, size: nat): (size': int)
    ensures size' <= ShrunkSize(rate.target, rate.adjust, least, rate.floor, rate.cap, size) <= size
    ensures MayShrink(size', size, least) <==> rate.cap >= size || rate.cap >= least
  {
    ExtendedSize(rate.extension, Max(least, rate.floor),
                 ShrunkSize(rate.target, rate.adjust, least, rate.floor, rate.cap, size))
  }

  // ---------------------------------------------------------------- earlier choices that look at the packet size

  /** The test of the earlier choices: k more bits within the packet. */
  predicate Affords(tell: int, k: int, size: nat) {
    tell + k <= 8 * size
  }

  /** The largest k up to 16 with ec_tell + k <= total_bits, or -1: what the tests before the side information see. */
  function Room(tell: int, size: nat): (k: int)
    ensures -1 <= k <= 16
    ensures forall j :: 0 <= j <= 16 ==> (Affords(tell, j, size) <==> j <= k)
  {
    Max(-1, Min(16, 8 * size - tell))
  }

  type SizedChooser = (seq<nat>, int) -> Model

  function Sized(choose: SizedChooser, size: nat): (next: Chooser) {
    (before: seq<nat>, nbits: int, rng: nat) => choose(before, Room(EcTell(nbits, rng), size))
  }

  lemma SizedModel(choose: SizedChooser, size: nat, before: seq<nat>)
    ensures var next := Sized(choose, size);
            ModelAt([], next, before) == choose(before, Room(Run(Trace([], next, before)).Tell(), size))
  {
    hide Run, Room;
  }

  lemma TracePrefixTell8(next: Chooser, values: seq<nat>, n: nat)
    requires n <= |values|
    ensures Tell8(Run(Trace([], next, values[..n]))) <= Tell8(Run(Trace([], next, values)))
  {
    hide Run, Tell8, Trace;
    TracePrefix([], next, values, n);
    Tell8Prefix([], Trace([], next, values[..n]), Trace([], next, values));
    assert [] + Trace([], next, values[..n]) == Trace([], next, values[..n]);
    assert [] + Trace([], next, values) == Trace([], next, values);
  }

  /** The two-byte margin keeps every such test true: the smaller packet leads to the same models. */
  lemma {:induction false} ModelsShrink(choose: SizedChooser, values: seq<nat>, size: nat, size': nat)
    requires size' <= size && Tell8(Run(Trace([], Sized(choose, size), values))) + 128 <= 64 * size'
    ensures Trace([], Sized(choose, size'), values) == Trace([], Sized(choose, size), values)
    ensures ModelAt([], Sized(choose, size'), values) == ModelAt([], Sized(choose, size), values)
    decreases |values|
  {
    hide Run, Tell8, Codes, Calls, ModelAt, Sized;
    var next, next' := Sized(choose, size), Sized(choose, size');
    if values != [] {
      var n := |values| - 1;
      TracePrefixTell8(next, values, n);
      ModelsShrink(choose, values[..n], size, size');
    }
    SizedModel(choose, size, values);
    SizedModel(choose, size', values);
    Tell8Bounds(Run(Trace([], next, values)));
  }

  lemma FollowsShrink(choose: SizedChooser, values: seq<nat>, size: nat, size': nat)
    requires size' <= size && Tell8(Run(Trace([], Sized(choose, size), values))) + 128 <= 64 * size'
    requires Follows([], Sized(choose, size), values)
    ensures Follows([], Sized(choose, size'), values)
  {
    hide Run, Tell8, Codes, ModelAt, Sized, Trace;
    forall i | 0 <= i < |values| ensures Codes(ModelAt([], Sized(choose, size'), values[..i]), values[i]) {
      TracePrefixTell8(Sized(choose, size), values, i);
      ModelsShrink(choose, values[..i], size, size');
    }
  }

  // ---------------------------------------------------------------- a frame

  /** What is already written fits every size the encoder may shrink to. */
  lemma ShrinkFits(enc: Enc.Encoder, total: nat, size': int)
    requires enc.Valid() && MayShrink(size', enc.storage, MinAllowed(Tell8(Run(enc.ops)), total))
    ensures enc.offs + enc.endOffs <= size' <= enc.storage
  {
    hide Run, Tell8, Flush.AboveBytes, Tail;
    var s := Run(enc.ops);
    if size' != enc.storage {
      Tell8Bounds(s);
      TellCoversBytes(s);
      assert 8 * (s.n + s.bits / 8) <= 8 * s.n + s.bits < s.Tell();
    }
  }

  lemma TellCoversBytes(s: State)
    requires CODE_BOT < s.rng <= CODE_TOP
    ensures 8 * s.n + s.bits + 1 <= s.Tell()
  {
    Pow2Constants();
    ILogBounds(s.rng);
    Pow2Strict(ILog(s.rng) - 1, 32);
  }

  /** What a decoder of the final size reads is what the encoder coded for the original size. */
  lemma SidesAgree(pre: seq<Op>, a: Wish, b: Wish, f: Frame, size: nat, size': nat,
                   mid: seq<Op>, all: seq<Op>, post: seq<Op>, sideA: Side, sideB: Side, p: seq<byte>)
    requires Coded(pre, a, f, size, mid, sideA) && Coded(pre, b, f, size', post, sideB)
    requires MayShrink(size', size, LeastSize(pre, a, f, size))
    requires mid <= all && Holds(Run(all), p) && Holds(Run(post), p)
    ensures sideB == sideA && post == mid
  {
    hide Run, Holds, SideCode, Tell8;
    SideShrink(pre, a, f, size, size');
    assert all[..|mid|] == mid;
    PrefixHolds(all, |mid|, p);
    SideUnique(pre, a, b, f, size', p);
  }

  /** Before the side information, a size the encoder may shrink to leads to the same calls. */
  lemma EarlierAgree(choose: SizedChooser, values: seq<nat>, w: Wish, f: Frame, size: nat, size': nat)
    requires Wishes(w, f) && Follows([], Sized(choose, size), values)
    requires MayShrink(size', size, LeastSize(Trace([], Sized(choose, size), values), w, f, size))
    ensures Trace([], Sized(choose, size'), values) == Trace([], Sized(choose, size), values)
    ensures Follows([], Sized(choose, size'), values)
  {
    hide Run, Tell8, Sized, Trace, Follows, SideCode;
    if size' != size {
      var pre := Trace([], Sized(choose, size), values);
      Tell8Grows(pre, SideCode(pre, w, f, size).ops);
      ModelsShrink(choose, values, size, size');
      FollowsShrink(choose, values, size, size');
    }
  }

  /**
   * Models of the values after the side information: chosen by the values before it, the settings, the final
   * size, and the later values and counters.
   */
  type LaterChooser = (seq<nat>, Side, int) -> Chooser

  /** What an encoder is given for one frame. */
  datatype Content = Content(choose: SizedChooser, values: seq<nat>, frame: Frame, wish: Wish, later: LaterChooser,
                             rest: seq<nat>)
  {
    ghost predicate Usable() {
      && Wishes(wish, frame) && (forall k: nat :: AlwaysUsable(Sized(choose, k)))
      && forall e: seq<nat>, s: Side, k: int :: AlwaysUsable(later(e, s, k))
    }

    /** The calls before the side information. */
    function Earlier(size: nat): (ops: seq<Op>) {
      Trace([], Sized(choose, size), values)
    }

    function Settings(size: nat): (side: Side)
      requires Wishes(wish, frame)
    {
      SideCode(Earlier(size), wish, frame, size).side
    }

    /** The calls up to the end of the side information. */
    function Middle(size: nat): (ops: seq<Op>)
      requires Wishes(wish, frame)
    {
      Earlier(size) + SideCode(Earlier(size), wish, frame, size).ops
    }

    ghost function Least(size: nat): (r: int)
      requires Wishes(wish, frame)
    {
      LeastSize(Earlier(size), wish, frame, size)
    }

    function Later(size: nat, size': int): (next: Chooser)
      requires Wishes(wish, frame)
    {
      later(values, Settings(size), size')
    }

    /** Every call of a frame that starts with `size` bytes and ends with size'. */
    function AllCalls(size: nat, size': int): (ops: seq<Op>)
      requires Wishes(wish, frame)
    {
      Trace(Middle(size), Later(size, size'), rest)
    }

    /** All values can be coded under their models. */
    ghost predicate Codable(size: nat, size': int) {
      && Usable() && Follows([], Sized(choose, size), values)
      && Follows(Middle(size), Later(size, size'), rest)
    }
  }

  lemma CallsExtend(c: Content, size: nat, size': int)
    requires Wishes(c.wish, c.frame)
    ensures c.Earlier(size) <= c.Middle(size) <= c.AllCalls(size, size')
  {
    hide Run, SideCode;
    TracePrefix(c.Middle(size), c.Later(size, size'), c.rest, 0);
    EmptyTrace(c.Middle(size), c.Later(size, size'));
    assert c.rest[..0] == [];
  }

  /**
   * A whole frame: earlier values (coarse energy among them) whose models may look at the packet size, the side
   * information, one or two shrinks, later values whose models look at all of it. Unless the cap forces a packet
   * below the minimum, it succeeds exactly when the bits used fit the final packet, and then everything comes
   * back.
   */
  method FrameThroughPacket(c: Content, size: nat, rate: Rate)
    returns (ok: bool, sent: Side, earlier: seq<nat>, received: Side, rest: seq<nat>, size': int)
    requires Wishes(c.wish, c.frame) && c.Codable(size, FinalSize(rate, c.Least(size), size))
    ensures sent == c.Settings(size) && size' == FinalSize(rate, c.Least(size), size)
    ensures rate.cap >= size || rate.cap >= c.Least(size) ==>
              && (ok <==> Flush.FlushedBits(Run(c.AllCalls(size, size'))) <= 8 * size')
              && (ok ==> earlier == c.values && received == sent && rest == c.rest)
  {
    hide Run, Holds, Sized, Trace, Follows, SideCode, AlwaysUsable, Enc.Encoder.Valid, Dec.Decoder.Valid,
         Tell8, Log8, Flush.FlushedBits;
    var buf := new byte[size];
    var enc := new Enc.Encoder(buf, size);
    EncodeAll(enc, Sized(c.choose, size), c.values);
    var least;
    sent, least := SendSide(enc, c, size);
    size' := FinalSize(rate, least, size);
    if rate.cap >= size || rate.cap >= least {
      ShrinkFits(enc, SideCode(c.Earlier(size), c.wish, c.frame, size).total, size');
    }
    ok, earlier, received, rest := false, [], sent, [];
    if size' < enc.offs + enc.endOffs {
      return;  // ec_enc_shrink() asserts that this does not happen
    }
    enc.Shrink(ShrunkSize(rate.target, rate.adjust, least, rate.floor, rate.cap, size));
    enc.Shrink(size');
    EncodeAll(enc, c.later(c.values, sent, size'), c.rest);
    enc.Done();
    ok := enc.error == 0;
    if ok {
      earlier, received, rest := Receive(enc.buf, size', c, size);
    }
  }

  /** The side information, from and to the arrays the encoder keeps it in. */
  method SendSide(enc: Enc.Encoder, c: Content, size: nat) returns (sent: Side, least: int)
    requires enc.Valid() && Wishes(c.wish, c.frame) && enc.ops == c.Earlier(size) && enc.storage == size
    modifies enc, enc.buf
    ensures enc.Valid() && enc.ops == c.Middle(size) && enc.storage == size
    ensures sent == c.Settings(size) && least == c.Least(size)
  {
    hide Run, Sized, Trace, SideCode, Enc.Encoder.Valid, Tell8, Log8;
    var n, w := |c.wish.raw|, c.wish;
    var tfRes := new int[n](i requires 0 <= i < n => w.raw[i]);
    var offsets := new int[n](i requires 0 <= i < n => w.wants[i]);
    assert tfRes[0..n] == w.raw && offsets[0..n] == w.wants;
    var spread, trim;
    ghost var w';
    spread, trim, least, w' := EncodeSide(enc, c.frame, 0, n, tfRes, w.select, w.spread, offsets, w.trim);
    sent := Side(tfRes[0..n], spread, offsets[0..n], trim);
  }

  /**
   * The decoder of the final packet knows its size, the frame's settings, how many values there are and how
   * models are chosen.
   */
  method Receive(buf: array<byte>, size': nat, c: Content, ghost size: nat)
    returns (earlier: seq<nat>, received: Side, rest: seq<nat>)
    requires size' <= buf.Length && c.Codable(size, size') && Holds(Run(c.AllCalls(size, size')), buf[..size'])
    ensures MayShrink(size', size, c.Least(size)) ==>
              earlier == c.values && received == c.Settings(size) && rest == c.rest
  {
    hide Run, Holds, Sized, Trace, Follows, AlwaysUsable, Dec.Decoder.Valid, SideCode, LeastSize;
    var dec := new Dec.Decoder(buf, size');
    ghost var p := buf[..size'];
    ghost var fair := MayShrink(size', size, c.Least(size));
    CallsExtend(c, size, size');
    if fair {
      EarlierAgree(c.choose, c.values, c.wish, c.frame, size, size');
      assert c.AllCalls(size, size')[..|c.Earlier(size)|] == c.Earlier(size);
      PrefixHolds(c.AllCalls(size, size'), |c.Earlier(size)|, p);
    }
    earlier := DecodeAll(dec, Sized(c.choose, size'), |c.values|, c.values);
    received := ReceiveSide(dec, size', c, size);
    rest := DecodeAll(dec, c.later(earlier, received, size'), |c.rest|, c.rest);
  }

  /** In sync, the settings read are those sent, and the decoder stands where the encoder stood. */
  method ReceiveSide(dec: Dec.Decoder, size': nat, c: Content, ghost size: nat) returns (received: Side)
    requires dec.Valid() && dec.storage == size' && Wishes(c.wish, c.frame)
    requires Holds(Run(c.AllCalls(size, size')), dec.packet)
    modifies dec
    ensures dec.Valid()
    ensures MayShrink(size', size, c.Least(size)) && old(dec.ops) == c.Earlier(size) ==>
              received == c.Settings(size) && dec.ops == c.Middle(size)
  {
    hide Run, Holds, Sized, Trace, Dec.Decoder.Valid, SideCode, LeastSize;
    ghost var pre := dec.ops;
    var n := |c.frame.limits|;
    var tfRes, offsets := new int[n], new int[n];
    var spread, trim;
    ghost var w';
    spread, trim, w' := DecodeSide(dec, c.frame, 0, n, tfRes, offsets);
    received := Side(tfRes[0..n], spread, offsets[0..n], trim);
    DecoderHolds(dec);
    if MayShrink(size', size, c.Least(size)) && pre == c.Earlier(size) {
      CallsExtend(c, size, size');
      SidesAgree(pre, c.wish, w', c.frame, size, size', c.Middle(size), c.AllCalls(size, size'), dec.ops,
                 c.Settings(size), received, dec.packet);
    }
  }
}
