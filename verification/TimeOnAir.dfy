/** TX packets and their time on air (libloragw/src/loragw_aux.c, libloragw/src/loragw_hal.c).

    For valid LoRa parameters the symbol time is a multiple of 64 us, so the double arithmetic of the source is exact
    and is written here on integers, counting quarters of a symbol. */
module TimeOnAir {
  import opened Word32

  const TIMESTAMPED: uint8 := 1
  const MOD_LORA: uint8 := 0x10
  const MOD_FSK: uint8 := 0x20
  const DR_FSK_MIN: uint32 := 500
  const BW_125KHZ: uint8 := 0x04
  const BW_250KHZ: uint8 := 0x05
  const BW_500KHZ: uint8 := 0x06

  /** Size in bytes of the FSK sync word, as configured by default. */
  const FSK_SYNC_WORD_SIZE: uint8 := 3

  datatype TxPacket = TxPacket(
    freqHz: uint32,
    txMode: uint8,
    countUs: uint32,
    rfChain: uint8,
    rfPower: int,
    modulation: uint8,
    freqOffset: int,
    bandwidth: uint8,
    datarate: uint32,
    coderate: uint8,
    invertPol: bool,
    fDev: uint8,
    preamble: uint16,
    noCrc: bool,
    noHeader: bool,
    size: uint16,
    payload: seq<uint8>)

  predicate IsLoraDatarate(sf: uint8) { 5 <= sf <= 12 }

  predicate IsLoraBandwidth(bw: uint8) { bw == BW_125KHZ || bw == BW_250KHZ || bw == BW_500KHZ }

  predicate IsLoraCoderate(cr: uint8) { 1 <= cr <= 4 }

  function SymbolUs(bw: uint8, sf: uint8): nat
    requires IsLoraDatarate(sf) && IsLoraBandwidth(bw)
  {
    Pow2(sf) * 8 / (if bw == BW_125KHZ then 1 else if bw == BW_250KHZ then 2 else 4)
  }

  /** The bits the payload part of a frame has to carry. */
  function PayloadBits(sf: uint8, noHeader: bool, noCrc: bool, size: uint8): nat {
    var bits := 8 * size + (if noCrc then 0 else 16) - 4 * sf + (if sf >= 7 then 8 else 0)
                + (if noHeader then 0 else 20);
    if bits < 0 then 0 else bits
  }

  /** The bits carried by one interleaver block; SF11 and SF12 run with low data rate optimisation. */
  function BlockBits(sf: uint8): nat
    requires IsLoraDatarate(sf)
  {
    4 * (if sf >= 11 then sf - 2 else sf)
  }

  function CeilDiv(n: nat, d: nat): nat
    requires d > 0
  {
    (n + d - 1) / d
  }

  function PayloadSymbols(sf: uint8, cr: uint8, noHeader: bool, noCrc: bool, size: uint8): nat
    requires IsLoraDatarate(sf)
  {
    CeilDiv(PayloadBits(sf, noHeader, noCrc, size), BlockBits(sf)) * (cr + 4)
  }

  /** Quarters of a symbol in a whole frame with `n` payload symbols. */
  function Quarters(sf: uint8, preamble: uint16, n: nat): nat {
    4 * (preamble + 8 + n) + if sf >= 7 then 17 else 25
  }

  /** The duration of such a frame with symbols of `us` microseconds. */
  function FrameUs(sf: uint8, preamble: uint16, n: nat, us: nat): nat {
    Quarters(sf, preamble, n) * (us / 4)
  }

  function LoraTimeOnAir(
    bw: uint8, sf: uint8, cr: uint8, preamble: uint16, noHeader: bool, noCrc: bool, size: uint8): (toa: uint32)
    ensures toa < 2_180_000_000
  {
    if !IsLoraDatarate(sf) || !IsLoraBandwidth(bw) || !IsLoraCoderate(cr) then 0
    else
      var quarters := Quarters(sf, preamble, PayloadSymbols(sf, cr, noHeader, noCrc, size));
      SymbolsBounded(sf, cr, noHeader, noCrc, size);
      SymbolBounded(bw, sf);
      MulBounded(quarters, SymbolUs(bw, sf) / 4, 265_525, 8192);
      FrameUs(sf, preamble, PayloadSymbols(sf, cr, noHeader, noCrc, size), SymbolUs(bw, sf))
  }

  lemma {:induction false} MulBounded(a: nat, b: nat, aMax: nat, bMax: nat)
    requires a <= aMax && b <= bMax
    ensures 0 <= a * b <= aMax * bMax
  {
    assert a * b <= a * bMax <= aMax * bMax;
  }

  lemma {:induction false} MulCancel(a: int, b: int, d: nat)
    requires a * d < b * d
    ensures a < b
  {
  }

  lemma {:induction false} SymbolBounded(bw: uint8, sf: uint8)
    requires IsLoraDatarate(sf) && IsLoraBandwidth(bw)
    ensures SymbolUs(bw, sf) % 64 == 0 && 64 <= SymbolUs(bw, sf) <= 32768
  {
    assert Pow2(5) == 32 && Pow2(6) == 64 && Pow2(7) == 128 && Pow2(8) == 256;
    assert Pow2(9) == 512 && Pow2(10) == 1024 && Pow2(11) == 2048 && Pow2(12) == 4096;
  }

  lemma {:induction false} SymbolsBounded(sf: uint8, cr: uint8, noHeader: bool, noCrc: bool, size: uint8)
    requires IsLoraDatarate(sf) && IsLoraCoderate(cr)
    ensures PayloadSymbols(sf, cr, noHeader, noCrc, size) <= 832
  {
    var n, d := PayloadBits(sf, noHeader, noCrc, size), BlockBits(sf);
    assert n <= 2064 && 20 <= d;
    LeastBlocks(n, d);
    assert n <= 104 * d;
  }

  /** `CeilDiv(n, d)` is the least number of blocks of `d` bits that hold `n` bits. */
  lemma {:induction false} LeastBlocks(n: nat, d: nat)
    requires d > 0
    ensures n <= CeilDiv(n, d) * d
    ensures forall b: nat :: n <= b * d ==> CeilDiv(n, d) <= b
  {
    var q := CeilDiv(n, d);
    assert n + d - 1 == q * d + (n + d - 1) % d;
    forall b: nat | n <= b * d ensures q <= b {
      assert (q - 1) * d < b * d;
      MulCancel(q - 1, b, d);
    }
  }

  /** The whole time on air in milliseconds, as `lgw_time_on_air` returns it. */
  function TimeOnAirMs(p: TxPacket): uint32 {
    if p.modulation == MOD_LORA then
      (EmissionUs(p) + 500) / 1000
    else if p.modulation == MOD_FSK && p.datarate != 0 then
      var bytes := p.preamble + FSK_SYNC_WORD_SIZE + 1 + p.size + (if p.noCrc then 0 else 2);
      FskBounded(8000 * bytes, p.datarate);
      8000 * bytes / p.datarate + 1
    else 0
  }

  lemma {:induction false} FskBounded(n: nat, d: nat)
    requires d > 0
    ensures 0 <= n / d <= n
  {
    var q := n / d;
    assert n == q * d + n % d && q >= 0;
    MulBounded(q, 1, q, d);
  }

  /** The exact duration of a LoRa emission; the C call narrows the datarate and the size to 8 bits. */
  function EmissionUs(p: TxPacket): (toa: uint32)
    ensures toa < 2_180_000_000
  {
    LoraTimeOnAir(p.bandwidth, p.datarate % 256, p.coderate, p.preamble, p.noHeader, p.noCrc, p.size % 256)
  }

  /** Reserved time after the packet's timestamp, `lgw_time_on_air(packet) * 1000UL` stored in a uint32_t. */
  function DownlinkPostDelay(p: TxPacket): uint32 {
    TimeOnAirMs(p) * 1000 % TWO32
  }

  /** The millisecond rounding reserves at most 499 us less, and at most 500 us more, than a LoRa emission lasts. */
  lemma {:induction false} LoraPostDelay(p: TxPacket)
    requires p.modulation == MOD_LORA
    ensures EmissionUs(p) - 499 <= DownlinkPostDelay(p) <= EmissionUs(p) + 500 && DownlinkPostDelay(p) % 1000 == 0
  {
    Rounded(EmissionUs(p), TimeOnAirMs(p));
  }

  lemma {:induction false} Rounded(us: nat, ms: nat)
    requires ms == (us + 500) / 1000
    ensures us - 499 <= 1000 * ms <= us + 500
  {
    assert us + 500 == 1000 * ms + (us + 500) % 1000;
  }

  /** What a packet reserves, by its modulation: for legal FSK (0x20) the milliseconds of its time on air, for anything but
      LoRa (0x10) and FSK nothing. */
  lemma {:induction false} ReservedByModulation(p: TxPacket)
    ensures p.modulation == 0x20 && Legal(p) ==> DownlinkPostDelay(p) == 1000 * TimeOnAirMs(p)
    ensures p.modulation != 0x10 && p.modulation != 0x20 ==> DownlinkPostDelay(p) == 0
  {
    if p.modulation == 0x20 && Legal(p) {
      var bytes := p.preamble + FSK_SYNC_WORD_SIZE + 1 + p.size + (if p.noCrc then 0 else 2);
      QuotientBounded(8000 * bytes, p.datarate, 500);
    }
  }

  /** Of a LoRa packet the low 8 bits of datarate and size count, and the flags in their own roles: 4 bytes at SF7 with CRC
      and header, without CRC, and without header. */
  lemma {:induction false} PacketFrames(p: TxPacket)
    requires p.bandwidth == 0x04 && p.datarate % 256 == 7 && p.coderate == 1 && p.preamble == 8 && p.size % 256 == 4
    ensures !p.noCrc && !p.noHeader ==> EmissionUs(p) == 30_976
    ensures p.noCrc && !p.noHeader ==> EmissionUs(p) == 30_976
    ensures !p.noCrc && p.noHeader ==> EmissionUs(p) == 25_856
  {
    Frame(0x04, 7, 1, 8, p.noHeader, p.noCrc, 4, if p.noHeader then 1 else 2, 1024);
  }

  /** An FSK packet has a datarate of at least 500 baud; nothing is asked of a LoRa packet. */
  predicate Legal(p: TxPacket) {
    p.modulation == MOD_FSK ==> p.datarate >= DR_FSK_MIN
  }

  /** Every legal packet reserves less than 2181 s. */
  lemma {:induction false} LegalPostDelay(p: TxPacket)
    requires Legal(p)
    ensures DownlinkPostDelay(p) <= 2_180_001_000
  {
    if p.modulation == MOD_LORA {
      LoraPostDelay(p);
    } else if p.modulation == MOD_FSK {
      var bytes := p.preamble + FSK_SYNC_WORD_SIZE + 1 + p.size + (if p.noCrc then 0 else 2);
      QuotientBounded(8000 * bytes, p.datarate, 500);
    }
  }

  lemma {:induction false} QuotientBounded(n: nat, d: nat, least: nat)
    requires 0 < least <= d
    ensures n / d * least <= n
  {
    var q := n / d;
    assert n == q * d + n % d;
    MulBounded(q, least, q, d);
  }

  /** `blocks` interleaver blocks carry the payload of `size` bytes: 4 bits per block and spreading factor, two fewer
      factors at SF11 and SF12 (low data rate optimisation), for the payload, a CRC of 16 bits and a header of 20 bits if
      there are any, less what the first symbols carry. */
  predicate Carry(blocks: nat, sf: uint8, noHeader: bool, noCrc: bool, size: uint8) {
    8 * size + (if noCrc then 0 else 16) - 4 * sf + (if sf >= 7 then 8 else 0) + (if noHeader then 0 else 20)
    <= blocks * (4 * (sf - if sf >= 11 then 2 else 0))
  }

  /** The payload takes the fewest whole interleaver blocks that carry it, each of 4 symbols and the redundancy of the
      coding rate. */
  lemma {:induction false} PayloadSymbolsLeast(sf: uint8, cr: uint8, noHeader: bool, noCrc: bool, size: uint8)
    returns (blocks: nat)
    requires IsLoraDatarate(sf)
    ensures PayloadSymbols(sf, cr, noHeader, noCrc, size) == blocks * (cr + 4)
    ensures Carry(blocks, sf, noHeader, noCrc, size)
    ensures forall b: nat :: Carry(b, sf, noHeader, noCrc, size) ==> blocks <= b
  {
    var n, d := PayloadBits(sf, noHeader, noCrc, size), BlockBits(sf);
    LeastBlocks(n, d);
    blocks := CeilDiv(n, d);
    forall b: nat | Carry(b, sf, noHeader, noCrc, size) ensures blocks <= b {
      assert n <= b * d by {
        MulBounded(b, d, b, d);
      }
    }
  }

  function BandwidthKHz(bw: uint8): nat
    requires IsLoraBandwidth(bw)
  {
    if bw == BW_125KHZ then 125 else if bw == BW_250KHZ then 250 else 500
  }

  /** A symbol lasts 2^SF periods of the bandwidth. */
  lemma {:induction false} SymbolIsChips(bw: uint8, sf: uint8)
    requires IsLoraDatarate(sf) && IsLoraBandwidth(bw)
    ensures SymbolUs(bw, sf) * BandwidthKHz(bw) == 1000 * Pow2(sf)
  {
    assert Pow2(5) == 32 && Pow2(6) == 64 && Pow2(7) == 128 && Pow2(8) == 256;
    assert Pow2(9) == 512 && Pow2(10) == 1024 && Pow2(11) == 2048 && Pow2(12) == 4096;
  }

  /** The whole time on air of every valid frame, over the reals: preamble, sync and payload symbols times the symbol time
      of 2^SF periods of the bandwidth, the payload taking the fewest blocks that carry it. */
  lemma {:induction false} TimeOnAirExact(
    bw: uint8, sf: uint8, cr: uint8, preamble: uint16, noHeader: bool, noCrc: bool, size: uint8)
    returns (blocks: nat, symbols: nat, us: nat)
    requires IsLoraDatarate(sf) && IsLoraBandwidth(bw) && IsLoraCoderate(cr)
    ensures symbols == blocks * (cr + 4) && Carry(blocks, sf, noHeader, noCrc, size)
    ensures forall b: nat :: Carry(b, sf, noHeader, noCrc, size) ==> blocks <= b
    ensures us * (if bw == 0x04 then 125 else if bw == 0x05 then 250 else 500) == 1000 * Pow2(sf)
    ensures LoraTimeOnAir(bw, sf, cr, preamble, noHeader, noCrc, size) as real ==
            (preamble as real + (if sf >= 7 then 4.25 else 6.25) + 8.0 + symbols as real) * us as real
  {
    blocks := PayloadSymbolsLeast(sf, cr, noHeader, noCrc, size);
    symbols, us := PayloadSymbols(sf, cr, noHeader, noCrc, size), SymbolUs(bw, sf);
    SymbolIsChips(bw, sf);
    SymbolsExact(bw, sf, cr, preamble, noHeader, noCrc, size, symbols, us);
  }

  lemma {:induction false} SymbolsExact(
    bw: uint8, sf: uint8, cr: uint8, preamble: uint16, noHeader: bool, noCrc: bool, size: uint8, n: nat, us: nat)
    requires IsLoraDatarate(sf) && IsLoraBandwidth(bw) && IsLoraCoderate(cr)
    requires n == PayloadSymbols(sf, cr, noHeader, noCrc, size) && us == SymbolUs(bw, sf)
    ensures LoraTimeOnAir(bw, sf, cr, preamble, noHeader, noCrc, size) as real ==
            (preamble as real + (if sf >= 7 then 4.25 else 6.25) + 8.0 + n as real) * us as real
  {
    SymbolBounded(bw, sf);
    FrameUsExact(sf, preamble, n, us);
  }

  /** Any other datarate, bandwidth or coding rate is refused. */
  lemma {:induction false} TimeOnAirRefused(
    bw: uint8, sf: uint8, cr: uint8, preamble: uint16, noHeader: bool, noCrc: bool, size: uint8)
    requires !(5 <= sf <= 12) || !(bw in {0x04, 0x05, 0x06}) || !(1 <= cr <= 4)
    ensures LoraTimeOnAir(bw, sf, cr, preamble, noHeader, noCrc, size) == 0
  {
  }

  /** Frames of the sizes that occur: 100 bytes as the gateway sends them (SF7, 125 kHz, coding rate 4/5), the same at
      SF12, SF5 and 500 kHz, 98 bytes with CRC and header, without CRC and without header, and 20 bytes at SF11, 250 kHz and
      coding rate 4/8. */
  lemma {:induction false} RealFrames()
    ensures LoraTimeOnAir(0x04, 7, 1, 8, false, false, 100) == 174_336
    ensures LoraTimeOnAir(0x04, 12, 1, 8, false, false, 100) == 3_940_352
    ensures LoraTimeOnAir(0x04, 5, 1, 12, false, false, 100) == 59_200
    ensures LoraTimeOnAir(0x06, 7, 1, 8, false, false, 100) == 43_584
    ensures LoraTimeOnAir(0x04, 7, 1, 8, false, false, 98) == 169_216
    ensures LoraTimeOnAir(0x04, 7, 1, 8, false, true, 98) == 164_096
    ensures LoraTimeOnAir(0x04, 7, 1, 8, true, false, 98) == 164_096
    ensures LoraTimeOnAir(0x05, 11, 4, 8, false, false, 20) == 493_568
  {
    Frame(0x04, 7, 1, 8, false, false, 100, 30, 1024);
    Frame(0x04, 12, 1, 8, false, false, 100, 20, 32768);
    Frame(0x04, 5, 1, 12, false, false, 100, 41, 256);
    Frame(0x06, 7, 1, 8, false, false, 100, 30, 256);
    Frame(0x04, 7, 1, 8, false, false, 98, 29, 1024);
    Frame(0x04, 7, 1, 8, false, true, 98, 28, 1024);
    Frame(0x04, 7, 1, 8, true, false, 98, 28, 1024);
    Frame(0x05, 11, 4, 8, false, false, 20, 5, 8192);
  }

  /** A frame of `blocks` blocks with symbols of `us` microseconds. */
  lemma {:induction false} Frame(
    bw: uint8, sf: uint8, cr: uint8, preamble: uint16, noHeader: bool, noCrc: bool, size: uint8, blocks: nat, us: nat)
    requires IsLoraDatarate(sf) && IsLoraBandwidth(bw) && IsLoraCoderate(cr)
    requires Carry(blocks, sf, noHeader, noCrc, size) && (blocks > 0 ==> !Carry(blocks - 1, sf, noHeader, noCrc, size))
    requires us == [32, 64, 128, 256, 512, 1024, 2048, 4096][sf - 5] * 8 / [1, 2, 4][bw - 0x04]
    ensures LoraTimeOnAir(bw, sf, cr, preamble, noHeader, noCrc, size) ==
            (4 * (preamble + 8 + blocks * (cr + 4)) + if sf >= 7 then 17 else 25) * (us / 4)
  {
    assert Pow2(5) == 32 && Pow2(6) == 64 && Pow2(7) == 128 && Pow2(8) == 256;
    assert Pow2(9) == 512 && Pow2(10) == 1024 && Pow2(11) == 2048 && Pow2(12) == 4096;
    var least := PayloadSymbolsLeast(sf, cr, noHeader, noCrc, size);
    assert least <= blocks;
    if least < blocks {
      CarryMore(least, blocks - 1, sf, noHeader, noCrc, size);
    }
  }

  lemma {:induction false} CarryMore(a: nat, b: nat, sf: uint8, noHeader: bool, noCrc: bool, size: uint8)
    requires IsLoraDatarate(sf) && a <= b && Carry(a, sf, noHeader, noCrc, size)
    ensures Carry(b, sf, noHeader, noCrc, size)
  {
    var d := 4 * (sf - if sf >= 11 then 2 else 0);
    assert a * d <= b * d;
  }

  lemma {:induction false} FrameUsExact(sf: uint8, preamble: uint16, n: nat, us: nat)
    requires us % 64 == 0
    ensures FrameUs(sf, preamble, n, us) as real ==
            (preamble as real + (if sf >= 7 then 4.25 else 6.25) + 8.0 + n as real) * us as real
  {
    var quarters, q := Quarters(sf, preamble, n), us / 4;
    var symbols := preamble as real + (if sf >= 7 then 4.25 else 6.25) + 8.0 + n as real;
    assert us == 4 * q && quarters as real == 4.0 * symbols;
    MulExact(quarters, q, symbols);
  }

  lemma {:induction false} MulExact(quarters: nat, q: nat, symbols: real)
    requires quarters as real == 4.0 * symbols
    ensures (quarters * q) as real == symbols * (4 * q) as real
  {
    assert (quarters * q) as real == quarters as real * q as real;
    assert (4 * q) as real == 4.0 * q as real;
  }

  /** The reservation of an FSK packet is the least whole number of milliseconds longer than its duration. */
  lemma {:induction false} FskRoundsUp(p: TxPacket)
    requires p.modulation == MOD_FSK && p.datarate != 0
    ensures var bits := 8 * (p.preamble + 3 + 1 + p.size + (if p.noCrc then 0 else 2));
            (TimeOnAirMs(p) - 1) * p.datarate <= 1000 * bits < TimeOnAirMs(p) * p.datarate
  {
    var bytes := p.preamble + FSK_SYNC_WORD_SIZE + 1 + p.size + (if p.noCrc then 0 else 2);
    var n, d: nat := 8000 * bytes, p.datarate;
    assert n == (n / d) * d + n % d;
    assert (n / d + 1) * d == (n / d) * d + d;
  }
}
