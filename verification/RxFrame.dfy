/** Frames of the SX1302 RX buffer (libloragw/src/loragw_sx1302_rx.c): how packets are laid out, how they are counted
    and how they are parsed. */
module RxFrame {
  import opened Options
  import opened Word32

  const SYNCWORD_BYTE_0: uint8 := 0xA5
  const SYNCWORD_BYTE_1: uint8 := 0xC0
  const HEAD_METADATA: nat := 9
  const TAIL_METADATA: nat := 14
  const LORA_STD_MODEM_ID: uint8 := 16
  const FSK_MODEM_ID: uint8 := 17

  /** A received packet; the metrics are two signed bytes per time stamp metric. */
  datatype RxPacket = RxPacket(
    payload: seq<uint8>,
    channel: uint8,
    crcEn: bool,
    codingRate: nat,
    sf: nat,
    modemId: uint8,
    freqOffset: int,
    payloadCrcError: bool,
    syncError: bool,
    headerError: bool,
    timingSet: bool,
    snr: int,
    rssiChan: uint8,
    rssiSig: uint8,
    timestamp: uint32,
    crc16: uint16,
    metrics: seq<int>)

  datatype PopResult = PopError | PopWarning | PopPacket(pkt: RxPacket)

  /* ---- Reading a frame at index `i` of the memory ---- */

  function At(mem: seq<uint8>, i: nat): uint8 {
    if i < |mem| then mem[i] else 0
  }

  predicate SyncAt(mem: seq<uint8>, i: nat) {
    At(mem, i) == SYNCWORD_BYTE_0 && At(mem, i + 1) == SYNCWORD_BYTE_1
  }

  function PayloadLen(mem: seq<uint8>, i: nat): uint8 {
    At(mem, i + 2)
  }

  function NumMetrics(mem: seq<uint8>, i: nat): uint8 {
    At(mem, i + PayloadLen(mem, i) + 21)
  }

  function FrameLen(mem: seq<uint8>, i: nat): nat {
    HEAD_METADATA + PayloadLen(mem, i) + TAIL_METADATA + 2 * NumMetrics(mem, i)
  }

  function Signed8(b: uint8): int {
    if b < 128 then b else b - 256
  }

  /** A signed value on 20 bits. */
  function Signed20(raw: nat): int {
    if raw >= 0x8_0000 then raw - 0x10_0000 else raw
  }

  function Bit(b: uint8, weight: nat): bool
    requires weight > 0
  {
    b / weight % 2 == 1
  }

  function Parse(mem: seq<uint8>, i: nat): RxPacket {
    var t := i + PayloadLen(mem, i);
    RxPacket(
      seq<uint8>(PayloadLen(mem, i), k requires 0 <= k => At(mem, i + HEAD_METADATA + k)),
      At(mem, i + 3),
      Bit(At(mem, i + 4), 1),
      At(mem, i + 4) / 2 % 8,
      At(mem, i + 4) / 16 % 16,
      At(mem, i + 5),
      Signed20(At(mem, i + 8) % 16 * 0x1_0000 + At(mem, i + 7) * 0x100 + At(mem, i + 6)),
      Bit(At(mem, t + 9), 1),
      Bit(At(mem, t + 9), 4),
      Bit(At(mem, t + 9), 8),
      Bit(At(mem, t + 9), 16),
      Signed8(At(mem, t + 10)),
      At(mem, t + 11),
      At(mem, t + 12),
      At(mem, t + 15) + At(mem, t + 16) * 0x100 + At(mem, t + 17) * 0x1_0000 + At(mem, t + 18) * 0x100_0000,
      At(mem, t + 19) + At(mem, t + 20) * 0x100,
      seq(2 * NumMetrics(mem, i), k requires 0 <= k => Signed8(At(mem, t + 22 + k))))
  }

  /** The 8-bit sum of a stretch of bytes. */
  function Sum(s: seq<uint8>): uint8 {
    if s == [] then 0 else (Sum(s[..|s|-1]) + s[|s|-1]) % 256
  }

  /** The range checks on a parsed packet. */
  predicate InRange(p: RxPacket) {
    && p.modemId <= FSK_MODEM_ID
    && (p.modemId <= LORA_STD_MODEM_ID ==> p.channel <= 9 && 5 <= p.sf <= 12)
  }

  predicate ChecksumOk(mem: seq<uint8>, i: nat)
    requires i + FrameLen(mem, i) <= |mem|
  {
    var n := FrameLen(mem, i);
    mem[i + n - 1] == Sum(mem[i..i + n - 1])
  }

  /** What `rx_buffer_pop` returns at index `i` of a buffer of `size` bytes. */
  function Pop(mem: seq<uint8>, size: nat, i: nat): PopResult
    requires size <= |mem|
  {
    if i >= size || !SyncAt(mem, i) then PopError
    else if i + FrameLen(mem, i) > size || !ChecksumOk(mem, i) then PopWarning
    else if !InRange(Parse(mem, i)) then PopError
    else PopPacket(Parse(mem, i))
  }

  /** The sum of all bytes. */
  function Total(s: seq<uint8>): nat {
    if s == [] then 0 else s[0] + Total(s[1..])
  }

  lemma {:induction false} TotalSnoc(s: seq<uint8>, b: uint8)
    ensures Total(s + [b]) == Total(s) + b
  {
    if s == [] {
      assert s + [b] == [b];
      assert Total([b]) == b + Total([]);
    } else {
      assert (s + [b])[1..] == s[1..] + [b];
      TotalSnoc(s[1..], b);
    }
  }

  /** The 8-bit checksum is that sum modulo 256. */
  lemma {:induction false} SumIsTotal(s: seq<uint8>)
    ensures Sum(s) == Total(s) % 256
  {
    if s != [] {
      var n := |s| - 1;
      SumIsTotal(s[..n]);
      TotalSnoc(s[..n], s[n]);
      assert s[..n] + [s[n]] == s;
      ModAdd(Total(s[..n]), s[n]);
    }
  }

  /** What a pop answers, byte by byte: an error without data or without syncword; a warning for a frame that does not end
      inside the data, or whose last byte is not the sum of the others; otherwise an error for a modem above 17 or, of a
      LoRa modem, a channel above 9 or a spreading factor outside 5 to 12; and otherwise the packet. */
  lemma {:induction false} PopPlain(mem: seq<uint8>, size: nat, i: nat)
    requires size <= |mem|
    ensures i >= size || At(mem, i) != 0xA5 || At(mem, i + 1) != 0xC0 ==> Pop(mem, size, i) == PopError
    ensures i < size && At(mem, i) == 0xA5 && At(mem, i + 1) == 0xC0 ==>
              var len := 23 + At(mem, i + 2) + 2 * At(mem, i + At(mem, i + 2) + 21);
              if i + len > size || mem[i + len - 1] != Total(mem[i..i + len - 1]) % 256 then
                Pop(mem, size, i) == PopWarning
              else
                var modem, channel, sf := At(mem, i + 5), At(mem, i + 3), At(mem, i + 4) / 16;
                if modem > 17 || (modem <= 16 && (channel > 9 || sf < 5 || sf > 12)) then Pop(mem, size, i) == PopError
                else Pop(mem, size, i).PopPacket?
  {
    if i + FrameLen(mem, i) <= size {
      SumIsTotal(mem[i..i + FrameLen(mem, i) - 1]);
    }
  }

  /* ---- The counting walk and the resynchronisation of a fetch ---- */

  /** The number of frames from index `i` on, or None when one does not start with the syncword. */
  function CountWalk(mem: seq<uint8>, size: nat, i: nat): Option<nat>
    decreases size - i
  {
    if i >= size then Some(0)
    else if !SyncAt(mem, i) then None
    else
      var rest := CountWalk(mem, size, i + FrameLen(mem, i));
      if rest.None? then None else Some(1 + rest.value)
  }

  predicate SyncIn(s: seq<uint8>, i: nat) {
    i + 1 < |s| && s[i] == SYNCWORD_BYTE_0 && s[i + 1] == SYNCWORD_BYTE_1
  }

  /** The first syncword of the bytes from the FIFO at or after `i`, or their number less one. */
  function FirstSync(s: seq<uint8>, i: nat): (r: nat)
    requires i + 1 <= |s|
    ensures i <= r <= |s| - 1
    ensures forall j :: i <= j < r ==> !SyncIn(s, j)
    ensures r < |s| - 1 ==> SyncIn(s, r)
    decreases |s| - i
  {
    if i + 1 >= |s| || SyncIn(s, i) then i else FirstSync(s, i + 1)
  }

  /** Frames take at least 23 bytes each. */
  lemma {:induction false} CountBounded(mem: seq<uint8>, size: nat, i: nat)
    requires i <= size && CountWalk(mem, size, i).Some?
    ensures 23 * CountWalk(mem, size, i).value <= size - i + 22
    decreases size - i
  {
    if i < size {
      var n := i + FrameLen(mem, i);
      if n <= size {
        CountBounded(mem, size, n);
      } else {
        assert CountWalk(mem, size, n) == Some(0);
      }
    }
  }

  /** A popped packet is one whole frame of the counting walk. */
  lemma {:induction false} PopFits(mem: seq<uint8>, size: nat, i: nat)
    requires size <= |mem| && Pop(mem, size, i).PopPacket?
    ensures i < i + FrameLen(mem, i) <= size && SyncAt(mem, i)
  {
  }

  /* ---- One corrupted byte ---- */

  lemma {:induction false} ModAdd(x: int, d: int)
    ensures (x % 256 + d) % 256 == (x + d) % 256
  {
  }

  lemma {:induction false} SumSnoc(s: seq<uint8>, b: uint8)
    ensures Sum(s + [b]) == (Sum(s) + b) % 256
  {
    assert (s + [b])[..|s|] == s;
  }

  lemma {:induction false} SumSlice(mem: seq<uint8>, from: nat, to: nat)
    requires from <= to < |mem|
    ensures Sum(mem[from..to + 1]) == (Sum(mem[from..to]) + mem[to]) % 256
  {
    assert mem[from..to + 1] == mem[from..to] + [mem[to]];
    SumSnoc(mem[from..to], mem[to]);
  }

  /** Changing a byte changes the sum by the same amount. */
  lemma {:induction false} SumUpdate(s: seq<uint8>, k: nat, b: uint8)
    requires k < |s|
    ensures Sum(s[k := b]) == (Sum(s) + (b - s[k])) % 256
  {
    var n := |s| - 1;
    var f, c := s[..n], s[n];
    assert s == f + [c];
    SumSnoc(f, c);
    ModAdd(Sum(f) + c, b - s[k]);
    if k < n {
      SumUpdate(f, k, b);
      assert s[k := b] == f[k := b] + [c];
      SumSnoc(f[k := b], c);
      ModAdd(Sum(f) + (b - s[k]), c);
    } else {
      assert s[k := b] == f + [b];
      SumSnoc(f, b);
    }
  }

  lemma {:induction false} SumDiffers(s: seq<uint8>, k: nat, b: uint8)
    requires k < |s| && b != s[k]
    ensures Sum(s[k := b]) != Sum(s)
  {
    SumUpdate(s, k, b);
  }

  lemma {:induction false} SameLayout(mem: seq<uint8>, i: nat, k: nat, b: uint8)
    requires i + FrameLen(mem, i) <= |mem|
    requires 3 <= k < FrameLen(mem, i) && k != PayloadLen(mem, i) + 21
    ensures FrameLen(mem[i + k := b], i) == FrameLen(mem, i) && SyncAt(mem[i + k := b], i) == SyncAt(mem, i)
  {
  }

  /** Changing one byte of a frame that pops, outside its syncword, length and metric count, makes it fail with the
      warning. */
  lemma {:induction false} CorruptByte(mem: seq<uint8>, size: nat, i: nat, k: nat, b: uint8)
    requires size <= |mem| && Pop(mem, size, i).PopPacket?
    requires 3 <= k < FrameLen(mem, i) && k != PayloadLen(mem, i) + 21 && b != mem[i + k]
    ensures Pop(mem[i + k := b], size, i) == PopWarning
  {
    var mem' := mem[i + k := b];
    SameLayout(mem, i, k, b);
    ChecksumFails(mem, i, k, b);
  }

  lemma {:induction false} ChecksumFails(mem: seq<uint8>, i: nat, k: nat, b: uint8)
    requires i + FrameLen(mem, i) <= |mem| && ChecksumOk(mem, i)
    requires 3 <= k < FrameLen(mem, i) && k != PayloadLen(mem, i) + 21 && b != mem[i + k]
    ensures FrameLen(mem[i + k := b], i) == FrameLen(mem, i)
    ensures !ChecksumOk(mem[i + k := b], i)
  {
    SameLayout(mem, i, k, b);
    var mem' := mem[i + k := b];
    var n := FrameLen(mem, i);
    if k < n - 1 {
      SumDiffers(mem[i..i + n - 1], k, b);
      assert mem'[i..i + n - 1] == mem[i..i + n - 1][k := b];
    } else {
      assert mem'[i..i + n - 1] == mem[i..i + n - 1];
    }
  }
}
