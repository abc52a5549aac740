/** What the concentrator writes the RX buffer parser reads back: encoding of packets as frames, and the round trip
    through resynchronisation, counting and popping. */
module RxRoundTrip {
  import opened Options
  import opened Word32
  import opened RxFrame

  /** The bits of a frame that the parser ignores. */
  datatype Spare = Spare(freqHigh: nat, statusBit1: nat, statusHigh: nat, delta1: uint8, delta2: uint8) {
    predicate Valid() {
      freqHigh < 16 && statusBit1 < 2 && statusHigh < 8
    }
  }

  /** A packet that a frame can carry and that passes the range checks. */
  predicate Valid(p: RxPacket) {
    && |p.payload| < 256 && p.codingRate < 8 && p.sf < 16
    && -0x8_0000 <= p.freqOffset < 0x8_0000 && -128 <= p.snr < 128
    && |p.metrics| % 2 == 0 && |p.metrics| <= 254
    && (forall k :: 0 <= k < |p.metrics| ==> -128 <= p.metrics[k] < 128)
    && p.modemId <= 17 && (p.modemId <= 16 ==> p.channel <= 9 && 5 <= p.sf <= 12)
  }

  function Flag(b: bool): nat { if b then 1 else 0 }

  function Head(p: RxPacket, x: Spare): (h: seq<uint8>)
    requires Valid(p) && x.Valid()
    ensures |h| == 9
  {
    var raw := p.freqOffset % 0x10_0000;
    [0xA5, 0xC0, |p.payload|, p.channel, Flag(p.crcEn) + 2 * p.codingRate + 16 * p.sf, p.modemId,
     raw % 0x100, raw / 0x100 % 0x100, raw / 0x1_0000 + 16 * x.freqHigh]
  }

  function Status(p: RxPacket, x: Spare): uint8
    requires x.Valid()
  {
    Flag(p.payloadCrcError) + 2 * x.statusBit1 + 4 * Flag(p.syncError) + 8 * Flag(p.headerError)
    + 16 * Flag(p.timingSet) + 32 * x.statusHigh
  }

  function Tail(p: RxPacket, x: Spare): (t: seq<uint8>)
    requires Valid(p) && x.Valid()
    ensures |t| == 13
  {
    [Status(p, x), p.snr % 256, p.rssiChan, p.rssiSig, x.delta1, x.delta2,
     p.timestamp % 0x100, p.timestamp / 0x100 % 0x100, p.timestamp / 0x1_0000 % 0x100, p.timestamp / 0x100_0000,
     p.crc16 % 0x100, p.crc16 / 0x100, |p.metrics| / 2]
  }

  function MetricBytes(p: RxPacket): (m: seq<uint8>)
    ensures |m| == |p.metrics|
  {
    seq<uint8>(|p.metrics|, k requires 0 <= k < |p.metrics| => p.metrics[k] % 256)
  }

  function Body(p: RxPacket, x: Spare): seq<uint8>
    requires Valid(p) && x.Valid()
  {
    Head(p, x) + p.payload + Tail(p, x) + MetricBytes(p)
  }

  function Encode(p: RxPacket, x: Spare): (f: seq<uint8>)
    requires Valid(p) && x.Valid()
    ensures |f| == 23 + |p.payload| + |p.metrics|
  {
    Body(p, x) + [Total(Body(p, x)) % 256]
  }

  /** Frame `f` lies at index `i` of the memory. */
  predicate FrameAt(mem: seq<uint8>, i: nat, f: seq<uint8>) {
    i + |f| <= |mem| && mem[i..i + |f|] == f
  }

  /* ---- The bytes of a frame in memory ---- */

  lemma {:induction false} ByteAt(mem: seq<uint8>, i: nat, f: seq<uint8>, k: nat)
    requires FrameAt(mem, i, f) && k < |f|
    ensures At(mem, i + k) == f[k]
  {
    assert mem[i..i + |f|][k] == mem[i + k];
  }

  /** The head bytes of the frame of `p` lie at index `i`. */
  ghost predicate HeadIn(mem: seq<uint8>, i: nat, p: RxPacket, x: Spare)
    requires Valid(p) && x.Valid()
  {
    forall k :: 0 <= k < 9 ==> At(mem, i + k) == Head(p, x)[k]
  }

  /** Its tail bytes lie behind a payload that starts 9 bytes after `i`. */
  ghost predicate TailIn(mem: seq<uint8>, i: nat, p: RxPacket, x: Spare)
    requires Valid(p) && x.Valid()
  {
    forall k :: 0 <= k < 13 ==> At(mem, i + |p.payload| + 9 + k) == Tail(p, x)[k]
  }

  lemma {:induction false} HeadAt(mem: seq<uint8>, i: nat, p: RxPacket, x: Spare)
    requires Valid(p) && x.Valid() && FrameAt(mem, i, Encode(p, x))
    ensures HeadIn(mem, i, p, x)
  {
    forall k | 0 <= k < 9 ensures At(mem, i + k) == Head(p, x)[k] {
      ByteAt(mem, i, Encode(p, x), k);
    }
  }

  lemma {:induction false} PayloadAt(mem: seq<uint8>, i: nat, p: RxPacket, x: Spare, k: nat)
    requires Valid(p) && x.Valid() && FrameAt(mem, i, Encode(p, x)) && k < |p.payload|
    ensures At(mem, i + 9 + k) == p.payload[k]
  {
    ByteAt(mem, i, Encode(p, x), 9 + k);
  }

  lemma {:induction false} TailAt(mem: seq<uint8>, i: nat, p: RxPacket, x: Spare)
    requires Valid(p) && x.Valid() && FrameAt(mem, i, Encode(p, x))
    ensures TailIn(mem, i, p, x)
  {
    forall k | 0 <= k < 13 ensures At(mem, i + |p.payload| + 9 + k) == Tail(p, x)[k] {
      ByteAt(mem, i, Encode(p, x), |p.payload| + 9 + k);
    }
  }

  lemma {:induction false} MetricAt(mem: seq<uint8>, i: nat, p: RxPacket, x: Spare, k: nat)
    requires Valid(p) && x.Valid() && FrameAt(mem, i, Encode(p, x)) && k < |p.metrics|
    ensures At(mem, i + |p.payload| + 22 + k) == p.metrics[k] % 256
  {
    ByteAt(mem, i, Encode(p, x), |p.payload| + 22 + k);
    assert MetricBytes(p)[k] == p.metrics[k] % 256;
  }

  /* ---- One frame ---- */

  lemma {:induction false} LayoutIn(mem: seq<uint8>, i: nat, p: RxPacket, x: Spare)
    requires Valid(p) && x.Valid() && HeadIn(mem, i, p, x) && TailIn(mem, i, p, x)
    ensures SyncAt(mem, i) && PayloadLen(mem, i) == |p.payload| && 2 * NumMetrics(mem, i) == |p.metrics|
  {
    var h, t := Head(p, x), Tail(p, x);
    assert At(mem, i + 0) == h[0] && At(mem, i + 1) == h[1] && At(mem, i + 2) == h[2];
    assert At(mem, i + |p.payload| + 9 + 12) == t[12] == |p.metrics| / 2;
  }

  lemma {:induction false} LayoutAt(mem: seq<uint8>, i: nat, p: RxPacket, x: Spare)
    requires Valid(p) && x.Valid() && FrameAt(mem, i, Encode(p, x))
    ensures SyncAt(mem, i) && PayloadLen(mem, i) == |p.payload| && 2 * NumMetrics(mem, i) == |p.metrics|
    ensures FrameLen(mem, i) == |Encode(p, x)|
  {
    HeadAt(mem, i, p, x);
    TailAt(mem, i, p, x);
    LayoutIn(mem, i, p, x);
  }

  lemma {:induction false} Bytes2(v: nat)
    requires v < 0x1_0000
    ensures v % 0x100 + v / 0x100 * 0x100 == v
  {
  }

  lemma {:induction false} Bytes3(v: nat)
    requires v < 0x100_0000
    ensures v / 0x1_0000 * 0x1_0000 + v / 0x100 % 0x100 * 0x100 + v % 0x100 == v
  {
    assert v / 0x100 / 0x100 == v / 0x1_0000;
  }

  lemma {:induction false} Bytes4(v: nat)
    requires v < TWO32
    ensures v % 0x100 + v / 0x100 % 0x100 * 0x100 + v / 0x1_0000 % 0x100 * 0x1_0000 + v / 0x100_0000 * 0x100_0000 == v
  {
    assert v / 0x100 / 0x100 == v / 0x1_0000;
    assert v / 0x1_0000 / 0x100 == v / 0x100_0000;
  }

  /** The signed 20-bit frequency offset survives two's complement. */
  lemma {:induction false} FreqOffsetBack(v: int, high: nat)
    requires -0x8_0000 <= v < 0x8_0000 && high < 16
    ensures var raw := v % 0x10_0000;
            Signed20((raw / 0x1_0000 + 16 * high) % 16 * 0x1_0000 + raw / 0x100 % 0x100 * 0x100 + raw % 0x100) == v
  {
    var raw := v % 0x10_0000;
    assert raw == if v < 0 then v + 0x10_0000 else v;
    Bytes3(raw);
    assert raw / 0x1_0000 < 16;
    assert (raw / 0x1_0000 + 16 * high) % 16 == raw / 0x1_0000;
  }

  lemma {:induction false} ParseHead(mem: seq<uint8>, i: nat, p: RxPacket, x: Spare)
    requires Valid(p) && x.Valid() && HeadIn(mem, i, p, x)
    ensures var r := Parse(mem, i);
            && r.channel == p.channel && r.crcEn == p.crcEn && r.codingRate == p.codingRate && r.sf == p.sf
            && r.modemId == p.modemId && r.freqOffset == p.freqOffset
  {
    var h := Head(p, x);
    assert At(mem, i + 3) == h[3] && At(mem, i + 4) == h[4] && At(mem, i + 5) == h[5];
    assert At(mem, i + 6) == h[6] && At(mem, i + 7) == h[7] && At(mem, i + 8) == h[8];
    FreqOffsetBack(p.freqOffset, x.freqHigh);
    Nibbles(p.crcEn, p.codingRate, p.sf);
  }

  lemma {:induction false} Nibbles(c: bool, r: nat, s: nat)
    requires r < 8 && s < 16
    ensures var b := Flag(c) + 2 * r + 16 * s; Bit(b, 1) == c && b / 2 % 8 == r && b / 16 % 16 == s
  {
  }

  lemma {:induction false} StatusBits(p: RxPacket, x: Spare)
    requires x.Valid()
    ensures var b := Status(p, x);
            && Bit(b, 1) == p.payloadCrcError && Bit(b, 4) == p.syncError
            && Bit(b, 8) == p.headerError && Bit(b, 16) == p.timingSet
  {
    var b := Status(p, x);
    var t4 := Flag(p.timingSet) + 2 * x.statusHigh;
    var t3 := Flag(p.headerError) + 2 * t4;
    var t2 := Flag(p.syncError) + 2 * t3;
    assert b == Flag(p.payloadCrcError) + 2 * (x.statusBit1 + 2 * t2);
    assert b / 4 == t2 && b / 8 == t3 && b / 16 == t4;
  }

  lemma {:induction false} ParseTail(mem: seq<uint8>, i: nat, p: RxPacket, x: Spare)
    requires Valid(p) && x.Valid() && TailIn(mem, i, p, x) && PayloadLen(mem, i) == |p.payload|
    ensures var r := Parse(mem, i);
            && r.payloadCrcError == p.payloadCrcError && r.syncError == p.syncError
            && r.headerError == p.headerError && r.timingSet == p.timingSet
            && r.snr == p.snr && r.rssiChan == p.rssiChan && r.rssiSig == p.rssiSig
  {
    var t, n := Tail(p, x), i + |p.payload| + 9;
    assert At(mem, n + 0) == t[0] && At(mem, n + 1) == t[1] && At(mem, n + 2) == t[2] && At(mem, n + 3) == t[3];
    StatusBits(p, x);
  }

  lemma {:induction false} ParseStamps(mem: seq<uint8>, i: nat, p: RxPacket, x: Spare)
    requires Valid(p) && x.Valid() && TailIn(mem, i, p, x) && PayloadLen(mem, i) == |p.payload|
    ensures Parse(mem, i).timestamp == p.timestamp && Parse(mem, i).crc16 == p.crc16
  {
    var t, n := Tail(p, x), i + |p.payload| + 9;
    assert At(mem, n + 6) == t[6] && At(mem, n + 7) == t[7] && At(mem, n + 8) == t[8] && At(mem, n + 9) == t[9];
    assert At(mem, n + 10) == t[10] && At(mem, n + 11) == t[11];
    Bytes4(p.timestamp);
    Bytes2(p.crc16);
  }

  lemma {:induction false} ParsePayload(mem: seq<uint8>, i: nat, p: RxPacket, x: Spare)
    requires Valid(p) && x.Valid() && FrameAt(mem, i, Encode(p, x)) && PayloadLen(mem, i) == |p.payload|
    ensures Parse(mem, i).payload == p.payload
  {
    forall k | 0 <= k < |p.payload| ensures At(mem, i + 9 + k) == p.payload[k] {
      PayloadAt(mem, i, p, x, k);
    }
  }

  lemma {:induction false} ParseMetrics(mem: seq<uint8>, i: nat, p: RxPacket, x: Spare)
    requires Valid(p) && x.Valid() && FrameAt(mem, i, Encode(p, x))
    requires PayloadLen(mem, i) == |p.payload| && 2 * NumMetrics(mem, i) == |p.metrics|
    ensures Parse(mem, i).metrics == p.metrics
  {
    forall k | 0 <= k < |p.metrics| ensures Signed8(At(mem, i + |p.payload| + 22 + k)) == p.metrics[k] {
      MetricAt(mem, i, p, x, k);
      SignedBack(p.metrics[k]);
    }
  }

  lemma {:induction false} SignedBack(v: int)
    requires -128 <= v < 128
    ensures Signed8(v % 256) == v
  {
  }

  /** Popping an encoded frame returns the packet that was encoded, whatever the ignored bits are. */
  lemma {:induction false} PopEncoded(mem: seq<uint8>, size: nat, i: nat, p: RxPacket, x: Spare)
    requires Valid(p) && x.Valid() && FrameAt(mem, i, Encode(p, x))
    requires i + |Encode(p, x)| <= size <= |mem|
    ensures Pop(mem, size, i) == PopPacket(p)
  {
    LayoutAt(mem, i, p, x);
    HeadAt(mem, i, p, x);
    TailAt(mem, i, p, x);
    ParseHead(mem, i, p, x);
    ParseTail(mem, i, p, x);
    ParseStamps(mem, i, p, x);
    ParsePayload(mem, i, p, x);
    ParseMetrics(mem, i, p, x);
    assert Parse(mem, i) == p;
    EncodedChecksum(mem, i, p, x);
  }

  lemma {:induction false} EncodedChecksum(mem: seq<uint8>, i: nat, p: RxPacket, x: Spare)
    requires Valid(p) && x.Valid() && FrameAt(mem, i, Encode(p, x)) && FrameLen(mem, i) == |Encode(p, x)|
    ensures ChecksumOk(mem, i)
  {
    SumIsTotal(Body(p, x));
    var f := Encode(p, x);
    var n := |f|;
    assert mem[i..i + n - 1] == mem[i..i + n][..n - 1] == f[..n - 1] == Body(p, x);
    ByteAt(mem, i, f, n - 1);
  }

  /* ---- Lists of frames ---- */

  function Concat(fs: seq<seq<uint8>>): seq<uint8> {
    if fs == [] then [] else fs[0] + Concat(fs[1..])
  }

  /** A stretch of bytes that is one whole frame. */
  predicate IsFrame(f: seq<uint8>) {
    |f| >= 23 && SyncAt(f, 0) && FrameLen(f, 0) == |f|
  }

  /** A frame is laid out alike wherever it lies. */
  lemma {:induction false} LayoutLocal(mem: seq<uint8>, i: nat, f: seq<uint8>)
    requires FrameAt(mem, i, f) && IsFrame(f)
    ensures SyncAt(mem, i) && FrameLen(mem, i) == |f|
  {
    ByteAt(mem, i, f, 0);
    ByteAt(mem, i, f, 1);
    ByteAt(mem, i, f, 2);
    ByteAt(mem, i, f, PayloadLen(f, 0) + 21);
  }

  lemma {:induction false} SplitConcat(mem: seq<uint8>, i: nat, fs: seq<seq<uint8>>)
    requires fs != [] && FrameAt(mem, i, Concat(fs))
    ensures |Concat(fs)| == |fs[0]| + |Concat(fs[1..])|
    ensures FrameAt(mem, i, fs[0]) && FrameAt(mem, i + |fs[0]|, Concat(fs[1..]))
  {
    var f, g := fs[0], Concat(fs[1..]);
    var all := mem[i..i + |f| + |g|];
    assert all == f + g;
    assert mem[i..i + |f|] == all[..|f|] == f;
    assert mem[i + |f|..i + |f| + |g|] == all[|f|..] == g;
  }

  /** Where frame `k` of a concatenation starts. */
  function Offset(fs: seq<seq<uint8>>, k: nat): nat
    requires k <= |fs|
  {
    if k == 0 then 0 else |fs[0]| + Offset(fs[1..], k - 1)
  }

  lemma {:induction false} OffsetNext(fs: seq<seq<uint8>>, k: nat)
    requires k < |fs|
    ensures Offset(fs, k + 1) == Offset(fs, k) + |fs[k]|
  {
    if k > 0 {
      OffsetNext(fs[1..], k - 1);
    }
  }

  lemma {:induction false} OffsetEnd(fs: seq<seq<uint8>>)
    ensures Offset(fs, |fs|) == |Concat(fs)|
    decreases |fs|
  {
    if fs != [] {
      OffsetEnd(fs[1..]);
    }
  }

  lemma {:induction false} FrameAtOffset(mem: seq<uint8>, i: nat, fs: seq<seq<uint8>>, k: nat)
    requires FrameAt(mem, i, Concat(fs)) && k < |fs|
    ensures FrameAt(mem, i + Offset(fs, k), fs[k])
    decreases k
  {
    SplitConcat(mem, i, fs);
    if k > 0 {
      FrameAtOffset(mem, i + |fs[0]|, fs[1..], k - 1);
    }
  }

  /** Frames start at these indices, one right behind the other, up to the end. */
  ghost predicate Chained(mem: seq<uint8>, size: nat, offs: seq<nat>) {
    && offs != [] && offs[|offs| - 1] == size
    && forall k :: 0 <= k < |offs| - 1 ==>
         offs[k] < size && SyncAt(mem, offs[k]) && offs[k + 1] == offs[k] + FrameLen(mem, offs[k])
  }

  /** The counting walk finds every frame. */
  lemma {:induction false} CountChained(mem: seq<uint8>, size: nat, offs: seq<nat>, k: nat)
    requires Chained(mem, size, offs) && k < |offs|
    ensures CountWalk(mem, size, offs[k]) == Some(|offs| - 1 - k)
    decreases |offs| - k
  {
    if k < |offs| - 1 {
      CountChained(mem, size, offs, k + 1);
    }
  }

  /** Successive pops from index `i` return exactly these packets, in order, and then an error. */
  predicate PopsTo(mem: seq<uint8>, size: nat, i: nat, ps: seq<RxPacket>)
    requires size <= |mem|
    decreases |ps|
  {
    if ps == [] then Pop(mem, size, i) == PopError
    else Pop(mem, size, i) == PopPacket(ps[0]) && PopsTo(mem, size, i + FrameLen(mem, i), ps[1..])
  }

  /** Wherever frame `f` lies whole in a buffer, popping it returns `p`. */
  ghost predicate Carries(f: seq<uint8>, p: RxPacket) {
    && IsFrame(f)
    && forall mem: seq<uint8>, size: nat, i: nat ::
         FrameAt(mem, i, f) && i + |f| <= size <= |mem| ==> Pop(mem, size, i) == PopPacket(p)
  }

  lemma {:induction false} PopCarried(mem: seq<uint8>, size: nat, i: nat, f: seq<uint8>, p: RxPacket)
    requires Carries(f, p) && FrameAt(mem, i, f) && i + |f| <= size <= |mem|
    ensures Pop(mem, size, i) == PopPacket(p) && FrameLen(mem, i) == |f|
  {
    LayoutLocal(mem, i, f);
  }

  lemma {:induction false} PopsMore(mem: seq<uint8>, size: nat, i: nat, p: RxPacket, rest: seq<RxPacket>)
    requires size <= |mem| && Pop(mem, size, i) == PopPacket(p) && PopsTo(mem, size, i + FrameLen(mem, i), rest)
    ensures PopsTo(mem, size, i, [p] + rest)
  {
    assert ([p] + rest)[1..] == rest;
  }

  /** The pops return every packet in order and then an error. */
  lemma {:induction false} PopChained(mem: seq<uint8>, size: nat, offs: seq<nat>, ps: seq<RxPacket>, k: nat)
    requires Chained(mem, size, offs) && size <= |mem| && |ps| == |offs| - 1 && k < |offs|
    requires forall j :: 0 <= j < |ps| ==> Pop(mem, size, offs[j]) == PopPacket(ps[j])
    ensures PopsTo(mem, size, offs[k], ps[k..])
    decreases |offs| - k
  {
    if k < |ps| {
      PopChained(mem, size, offs, ps, k + 1);
      PopsMore(mem, size, offs[k], ps[k], ps[k + 1..]);
      assert ps[k..] == [ps[k]] + ps[k + 1..];
    }
  }

  lemma {:induction false} EncodedCarries(p: RxPacket, x: Spare)
    requires Valid(p) && x.Valid()
    ensures Carries(Encode(p, x), p)
  {
    var f := Encode(p, x);
    assert f[0..0 + |f|] == f;
    LayoutAt(f, 0, p, x);
    forall mem: seq<uint8>, size: nat, i: nat | FrameAt(mem, i, f) && i + |f| <= size <= |mem|
      ensures Pop(mem, size, i) == PopPacket(p)
    {
      PopEncoded(mem, size, i, p, x);
    }
  }

  /** A prefix in which no syncword starts is skipped exactly. */
  lemma {:induction false} ResyncSkipsPrefix(prefix: seq<uint8>, fs: seq<seq<uint8>>)
    requires fs != [] && forall k :: 0 <= k < |fs| ==> IsFrame(fs[k])
    requires forall j :: 0 <= j < |prefix| ==> !SyncIn(prefix, j)
    ensures |Concat(fs)| >= 23
    ensures FirstSync(prefix + Concat(fs), 0) == |prefix|
  {
    var g := Concat(fs);
    var s := prefix + g;
    assert g[0] == fs[0][0] == SYNCWORD_BYTE_0 && g[1] == fs[0][1] == SYNCWORD_BYTE_1;
    assert SyncIn(s, |prefix|);
    forall j | 0 <= j < |prefix| ensures !SyncIn(s, j) {
      assert s[j] == prefix[j];
      if j + 1 < |prefix| {
        assert s[j + 1] == prefix[j + 1] && !SyncIn(prefix, j);
      } else {
        assert s[j + 1] == g[0];
      }
    }
  }

  function Offsets(fs: seq<seq<uint8>>): seq<nat> {
    seq(|fs| + 1, k requires 0 <= k <= |fs| => Offset(fs, k))
  }

  lemma {:induction false} OffsetsChained(mem: seq<uint8>, fs: seq<seq<uint8>>)
    requires forall k :: 0 <= k < |fs| ==> IsFrame(fs[k])
    requires Concat(fs) <= mem
    ensures Chained(mem, |Concat(fs)|, Offsets(fs))
  {
    var size, offs := |Concat(fs)|, Offsets(fs);
    OffsetEnd(fs);
    forall k | 0 <= k < |offs| - 1
      ensures offs[k] < size && SyncAt(mem, offs[k]) && offs[k + 1] == offs[k] + FrameLen(mem, offs[k])
    {
      FrameAtOffset(mem, 0, fs, k);
      OffsetNext(fs, k);
      OffsetsFit(fs, k + 1);
      LayoutLocal(mem, Offset(fs, k), fs[k]);
    }
  }

  lemma {:induction false} PopAtOffset(mem: seq<uint8>, fs: seq<seq<uint8>>, p: RxPacket, k: nat)
    requires k < |fs| && Carries(fs[k], p) && Concat(fs) <= mem
    ensures Pop(mem, |Concat(fs)|, Offset(fs, k)) == PopPacket(p)
  {
    FrameAtOffset(mem, 0, fs, k);
    OffsetNext(fs, k);
    OffsetsFit(fs, k + 1);
    PopCarried(mem, |Concat(fs)|, Offset(fs, k), fs[k], p);
  }

  /** Both walks over frames that start the memory. */
  lemma {:induction false} WalkFrames(mem: seq<uint8>, fs: seq<seq<uint8>>, ps: seq<RxPacket>)
    requires |fs| == |ps| && forall k :: 0 <= k < |fs| ==> Carries(fs[k], ps[k])
    requires Concat(fs) <= mem
    ensures CountWalk(mem, |Concat(fs)|, 0) == Some(|ps|) && PopsTo(mem, |Concat(fs)|, 0, ps)
  {
    var size, offs := |Concat(fs)|, Offsets(fs);
    assert offs[0] == 0;
    OffsetsChained(mem, fs);
    CountChained(mem, size, offs, 0);
    forall k | 0 <= k < |ps| ensures Pop(mem, size, offs[k]) == PopPacket(ps[k]) {
      PopAtOffset(mem, fs, ps[k], k);
    }
    PopChained(mem, size, offs, ps, 0);
    assert ps[0..] == ps;
  }

  lemma {:induction false} OffsetsFit(fs: seq<seq<uint8>>, k: nat)
    requires k <= |fs|
    ensures Offset(fs, k) <= |Concat(fs)|
  {
    if k > 0 {
      OffsetsFit(fs[1..], k - 1);
    }
  }

  /* ---- The round trip ---- */

  predicate AllValid(ps: seq<RxPacket>, xs: seq<Spare>) {
    |ps| == |xs| && forall k :: 0 <= k < |ps| ==> Valid(ps[k]) && xs[k].Valid()
  }

  function EncodeAll(ps: seq<RxPacket>, xs: seq<Spare>): seq<seq<uint8>>
    requires AllValid(ps, xs)
  {
    seq(|ps|, k requires 0 <= k < |ps| => Encode(ps[k], xs[k]))
  }

  /** For any packets and any ignored bits: behind any prefix without syncword, the frames are found, counted, and popped
      back as the packets they were made from, and then the buffer is exhausted. `mem` is the memory once the bytes from
      the first syncword on have been moved to its start. */
  lemma {:induction false} RoundTrip(prefix: seq<uint8>, ps: seq<RxPacket>, xs: seq<Spare>, mem: seq<uint8>)
    requires ps != [] && AllValid(ps, xs)
    requires forall j :: 0 <= j < |prefix| ==> !SyncIn(prefix, j)
    requires Concat(EncodeAll(ps, xs)) <= mem
    ensures var g := Concat(EncodeAll(ps, xs));
            && |g| >= 23
            && FirstSync(prefix + g, 0) == |prefix|
            && CountWalk(mem, |g|, 0) == Some(|ps|)
            && PopsTo(mem, |g|, 0, ps)
  {
    var fs := EncodeAll(ps, xs);
    forall k | 0 <= k < |fs| ensures Carries(fs[k], ps[k]) {
      EncodedCarries(ps[k], xs[k]);
    }
    ResyncSkipsPrefix(prefix, fs);
    WalkFrames(mem, fs, ps);
  }
}
