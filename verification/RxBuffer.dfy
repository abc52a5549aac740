/** The RX buffer object (libloragw/src/loragw_sx1302_rx.c), updated in place. */
module RxBuffer {
  import opened Options
  import opened Word32
  import opened RxFrame
  import opened RxRoundTrip

  const BUFFER_SIZE: nat := 4096

  datatype RegResult = RegSuccess | RegError

  function Zeros(n: nat): (s: seq<uint8>)
    ensures |s| == n
  {
    seq<uint8>(n, _ => 0)
  }

  /** The array cleared and then filled from its start. */
  function Filled(fifo: seq<uint8>): (s: seq<uint8>)
    requires |fifo| <= BUFFER_SIZE
    ensures |s| == BUFFER_SIZE && fifo <= s
  {
    fifo + Zeros(BUFFER_SIZE - |fifo|)
  }

  /** The array once the bytes from index `k` on have been moved to its start; what is behind them stays. */
  function Moved(fifo: seq<uint8>, k: nat): (s: seq<uint8>)
    requires k <= |fifo| <= BUFFER_SIZE
    ensures |s| == BUFFER_SIZE
  {
    fifo[k..] + Filled(fifo)[|fifo| - k..]
  }

  /** A fetch keeps the bytes from the first syncword on, if there is one and they can be walked as frames. */
  predicate Usable(fifo: seq<uint8>, past: seq<uint8>)
    requires |fifo| <= BUFFER_SIZE
  {
    && |fifo| >= HEAD_METADATA + TAIL_METADATA
    && var k := FirstSync(fifo, 0);
       k < |fifo| - 1 && CountWalk(Moved(fifo, k) + past, |fifo| - k, 0).Some?
  }

  /** The first syncword of the bytes is at index `k`. */
  ghost predicate SyncFirst(fifo: seq<uint8>, k: nat) {
    && k + 1 < |fifo| && fifo[k] == 0xA5 && fifo[k + 1] == 0xC0
    && forall j :: 0 <= j < k ==> fifo[j] != 0xA5 || fifo[j + 1] != 0xC0
  }

  /** Which bytes are kept: at least 23, from the first syncword on, if frame after frame can be walked from there. */
  lemma {:induction false} UsableIff(fifo: seq<uint8>, past: seq<uint8>)
    requires |fifo| <= 4096
    ensures Usable(fifo, past) <==>
            && |fifo| >= 23
            && exists k: nat :: SyncFirst(fifo, k) && CountWalk(Moved(fifo, k) + past, |fifo| - k, 0).Some?
  {
    if |fifo| >= 23 {
      var k := FirstSync(fifo, 0);
      if k < |fifo| - 1 {
        forall j | 0 <= j < k ensures fifo[j] != 0xA5 || fifo[j + 1] != 0xC0 {
          assert !SyncIn(fifo, j);
        }
        assert SyncIn(fifo, k) && SyncFirst(fifo, k);
      }
      forall k': nat | SyncFirst(fifo, k') ensures k' == k {
        assert SyncIn(fifo, k');
      }
    }
  }

  /** The array has 4096 bytes; after a fetch it holds the bytes from the syncword on, what they were moved over behind
      them, and zeros where nothing was read. */
  lemma {:induction false} MovedPlain(fifo: seq<uint8>, k: nat, i: nat)
    requires k <= |fifo| <= 4096 && i < 4096
    ensures |Moved(fifo, k)| == 4096
    ensures Moved(fifo, k)[i] == if i < |fifo| - k then fifo[k + i] else if i < |fifo| then fifo[i] else 0
  {
  }

  class RxBuffer {
    const buffer: array<uint8>
    var size: uint16
    var index: nat
    var pktNb: uint8
    /** Whatever lies in memory behind the array: a frame that starts near its end is read there. */
    const past: seq<uint8>

    ghost predicate Valid()
      reads this
    {
      buffer.Length == BUFFER_SIZE && size <= BUFFER_SIZE
    }

    ghost function Mem(): seq<uint8>
      reads buffer
    {
      buffer[..] + past
    }

    /** The packet count is what the counting walk finds from the current index on. */
    ghost predicate Counted()
      reads this, buffer
    {
      CountWalk(Mem(), size, index) == Some(pktNb as nat)
    }

    constructor (past: seq<uint8>)
      ensures Valid() && fresh(buffer) && this.past == past
      ensures size == 0 && index == 0 && pktNb == 0 && Counted()
    {
      buffer := new uint8[BUFFER_SIZE](_ => 0);
      this.past := past;
      size, index, pktNb := 0, 0, 0;
    }

    method Delete()
      requires Valid()
      modifies this
      ensures Valid() && size == 0 && index == 0 && pktNb == 0 && Counted()
    {
      size, index, pktNb := 0, 0, 0;
    }

    function Byte(i: nat): (b: uint8)
      reads this, buffer
      ensures b == At(Mem(), i)
    {
      if i < buffer.Length then buffer[i] else At(past, i - buffer.Length)
    }

    /** The two size reads, the bytes that the transfer from the FIFO delivers and whether it succeeds are inputs; a
        transfer that fails may have delivered some of the bytes. */
    method Fetch(nbBytes1: uint16, nbBytes2: uint16, fifo: seq<uint8>, ok: bool) returns (r: RegResult)
      requires Valid() && nbBytes1 <= BUFFER_SIZE && nbBytes2 <= BUFFER_SIZE
      requires var n := if nbBytes2 > nbBytes1 then nbBytes2 else nbBytes1;
               |fifo| <= n && (ok ==> |fifo| == n)
      modifies this, buffer
      ensures Valid()
      ensures nbBytes1 == 0 && nbBytes2 == 0 ==>
                r == RegSuccess && size == 0 && index == 0 && pktNb == old(pktNb) && buffer[..] == old(buffer[..])
      ensures (nbBytes1 != 0 || nbBytes2 != 0) && !ok ==>
                && r == RegError && index == old(index) && pktNb == old(pktNb)
                && size == (if nbBytes2 > nbBytes1 then nbBytes2 else nbBytes1)
                && buffer[..] == Filled(fifo)
      ensures (nbBytes1 != 0 || nbBytes2 != 0) && ok ==>
                && r == RegSuccess && index == 0
                && if Usable(fifo, past) then
                     var k := FirstSync(fifo, 0);
                     && size == |fifo| - k && buffer[..] == Moved(fifo, k)
                     && pktNb == (old(pktNb) + CountWalk(Mem(), size, 0).value) % 256
                   else size == 0 && pktNb == 0
      ensures r == RegSuccess && old(pktNb) == 0 ==> Counted() && pktNb <= 179
    {
      size := if nbBytes2 > nbBytes1 then nbBytes2 else nbBytes1;
      if size > 0 {
        Store(fifo);
        if !ok {
          return RegError;
        }
        Load(fifo);
      }
      index := 0;
      return RegSuccess;
    }

    /** The stored bytes are resynchronised and counted, or the whole buffer is discarded. */
    method Load(ghost f: seq<uint8>)
      requires Valid() && 0 < size == |f| && buffer[..] == Filled(f)
      modifies this, buffer
      ensures Valid()
      ensures Usable(f, past) ==>
                var k := FirstSync(f, 0);
                && size == |f| - k && buffer[..] == Moved(f, k) && CountWalk(Mem(), size, 0).Some?
                && pktNb == (old(pktNb) + CountWalk(Mem(), size, 0).value) % 256
      ensures !Usable(f, past) ==> size == 0 && pktNb == 0
      ensures old(pktNb) == 0 ==> CountWalk(Mem(), size, 0) == Some(pktNb as nat) && pktNb <= 179
    {
      if size < HEAD_METADATA + TAIL_METADATA {
        Delete();
        return;
      }
      assert buffer[..|f|] == f && Moved(f, 0) == Filled(f);
      var idx := FindSync(f);
      if idx > size - 2 {
        Delete();
        return;
      }
      KeepFrom(idx, f);
    }

    /** The bytes from the syncword on are moved to the start and counted. */
    method KeepFrom(idx: nat, ghost f: seq<uint8>)
      requires Valid() && idx < size == |f| && buffer[..] == Moved(f, 0)
      modifies this, buffer
      ensures Valid()
      ensures CountWalk(Moved(f, idx) + past, |f| - idx, 0).Some? ==>
                && size == |f| - idx && buffer[..] == Moved(f, idx)
                && pktNb == (old(pktNb) + CountWalk(Mem(), size, 0).value) % 256
                && CountWalk(Mem(), size, 0).value <= 179
      ensures CountWalk(Moved(f, idx) + past, |f| - idx, 0).None? ==> size == 0 && pktNb == 0
    {
      if idx != 0 {
        MoveDown(idx, f);
        size := size - idx;
      }
      var counted := CountPackets();
      if counted {
        CountBounded(Mem(), size, 0);
      } else {
        Delete();
      }
    }

    method FindSync(ghost f: seq<uint8>) returns (idx: nat)
      requires Valid() && 2 <= size == |f| && buffer[..size] == f
      ensures idx == FirstSync(f, 0)
    {
      idx := 0;
      while idx <= size - 2
        invariant idx <= size - 1
        invariant FirstSync(f, 0) == FirstSync(f, idx)
      {
        assert f[idx] == buffer[idx] && f[idx + 1] == buffer[idx + 1];
        if buffer[idx] == SYNCWORD_BYTE_0 && buffer[idx + 1] == SYNCWORD_BYTE_1 {
          break;
        }
        idx := idx + 1;
      }
    }

    /** The bytes from the FIFO, in an array cleared beforehand. */
    method Store(f: seq<uint8>)
      requires Valid() && |f| <= BUFFER_SIZE
      modifies buffer
      ensures buffer[..] == Filled(f)
    {
      forall i | 0 <= i < BUFFER_SIZE {
        buffer[i] := if i < |f| then f[i] else 0;
      }
    }

    /** memmove of the bytes from index `from` on to the start. */
    method MoveDown(from: nat, ghost f: seq<uint8>)
      requires Valid() && from <= |f| == size && buffer[..] == Moved(f, 0)
      modifies buffer
      ensures buffer[..] == Moved(f, from)
    {
      forall i | 0 <= i < size - from {
        buffer[i] := buffer[from + i];
      }
    }

    /** The counting walk; it adds to the packet count, and gives up at the first frame without syncword. */
    method CountPackets() returns (ok: bool)
      requires Valid()
      modifies this`pktNb
      ensures ok <==> CountWalk(Mem(), size, 0).Some?
      ensures ok ==> pktNb == (old(pktNb) + CountWalk(Mem(), size, 0).value) % 256
    {
      var idx := 0;
      ghost var n := 0;
      while idx < size
        invariant pktNb == (old(pktNb) + n) % 256
        invariant CountWalk(Mem(), size, 0).Some? <==> CountWalk(Mem(), size, idx).Some?
        invariant CountWalk(Mem(), size, 0).Some? ==>
                    CountWalk(Mem(), size, 0).value == n + CountWalk(Mem(), size, idx).value
        decreases size - idx
      {
        if Byte(idx) != SYNCWORD_BYTE_0 || Byte(idx + 1) != SYNCWORD_BYTE_1 {
          return false;
        }
        pktNb := (pktNb + 1) % 256;
        n := n + 1;
        var payloadLen := Byte(idx + 2);
        idx := idx + HEAD_METADATA + payloadLen + TAIL_METADATA + 2 * Byte(idx + payloadLen + 21);
      }
      return true;
    }

    method Pop() returns (r: PopResult)
      requires Valid()
      modifies this`index, this`pktNb
      ensures r == RxFrame.Pop(Mem(), size, old(index))
      ensures r.PopPacket? ==>
                index == old(index) + FrameLen(Mem(), old(index)) <= size && pktNb == (old(pktNb) - 1) % 256
      ensures !r.PopPacket? ==> index == old(index) && pktNb == old(pktNb)
      ensures old(Counted()) ==> Counted()
    {
      r := Examine();
      if r.PopPacket? {
        PopFits(Mem(), size, index);
        Advance();
      }
    }

    /** Past the frame at the current index: one packet less. */
    method Advance()
      requires Valid() && index + FrameLen(Mem(), index) <= size && SyncAt(Mem(), index)
      modifies this`index, this`pktNb
      ensures index == old(index) + FrameLen(Mem(), old(index))
      ensures pktNb == (old(pktNb) - 1) % 256
      ensures old(Counted()) ==> Counted()
    {
      var n := BytesInFrame();
      assert index < size;
      index := index + n;
      pktNb := (pktNb - 1) % 256;
    }

    method BytesInFrame() returns (n: nat)
      requires Valid()
      ensures n == FrameLen(Mem(), index)
    {
      var payloadLen: nat := Byte(index + 2);
      var numMetrics: nat := Byte(index + payloadLen + 21);
      n := HEAD_METADATA + payloadLen + TAIL_METADATA + 2 * numMetrics;
    }

    /** The checks on the frame at the current index, and its content. */
    method Examine() returns (r: PopResult)
      requires Valid()
      ensures r == RxFrame.Pop(Mem(), size, index)
    {
      if index >= size || Byte(index) != SYNCWORD_BYTE_0 || Byte(index + 1) != SYNCWORD_BYTE_1 {
        return PopError;
      }
      var n := BytesInFrame();
      if index + n > size {
        return PopWarning;
      }
      var sum := SumBytes(index, n - 1);
      assert buffer[index + n - 1] == Mem()[index + n - 1];
      if buffer[index + n - 1] != sum {
        return PopWarning;
      }
      var pkt := ReadPacket();
      return if InRange(pkt) then PopPacket(pkt) else PopError;
    }

    method SumBytes(from: nat, n: nat) returns (sum: uint8)
      requires Valid() && from + n <= size
      ensures sum == Sum(Mem()[from..from + n])
    {
      ghost var mem := Mem();
      sum := 0;
      for k := 0 to n
        invariant sum == Sum(mem[from..from + k])
      {
        assert mem[from + k] == buffer[from + k];
        SumSlice(mem, from, from + k);
        sum := (sum + buffer[from + k]) % 256;
      }
    }

    method ReadPayload(n: nat) returns (payload: seq<uint8>)
      requires Valid() && n == PayloadLen(Mem(), index)
      ensures payload == Parse(Mem(), index).payload
    {
      payload := [];
      for k := 0 to n
        invariant |payload| == k
        invariant forall j :: 0 <= j < k ==> payload[j] == At(Mem(), index + HEAD_METADATA + j)
      {
        payload := payload + [Byte(index + HEAD_METADATA + k)];
      }
    }

    method ReadMetrics(t: nat) returns (metrics: seq<int>)
      requires Valid() && t == index + PayloadLen(Mem(), index)
      ensures metrics == Parse(Mem(), index).metrics
    {
      metrics := [];
      for k := 0 to 2 * Byte(t + 21)
        invariant |metrics| == k
        invariant forall j :: 0 <= j < k ==> metrics[j] == Signed8(At(Mem(), t + 22 + j))
      {
        metrics := metrics + [Signed8(Byte(t + 22 + k))];
      }
    }

    /** Field by field, with the payload and the metrics copied byte by byte. */
    method ReadPacket() returns (p: RxPacket)
      requires Valid()
      ensures p == Parse(Mem(), index)
    {
      var payloadLen: nat := Byte(index + 2);
      var t := index + payloadLen;
      var metrics := ReadMetrics(t);
      var payload := ReadPayload(payloadLen);
      p := RxPacket(
        payload,
        Byte(index + 3),
        Bit(Byte(index + 4), 1),
        Byte(index + 4) / 2 % 8,
        Byte(index + 4) / 16 % 16,
        Byte(index + 5),
        Signed20(Byte(index + 8) % 16 * 0x1_0000 + Byte(index + 7) * 0x100 + Byte(index + 6)),
        Bit(Byte(t + 9), 1),
        Bit(Byte(t + 9), 4),
        Bit(Byte(t + 9), 8),
        Bit(Byte(t + 9), 16),
        Signed8(Byte(t + 10)),
        Byte(t + 11),
        Byte(t + 12),
        Byte(t + 15) + Byte(t + 16) * 0x100 + Byte(t + 17) * 0x1_0000 + Byte(t + 18) * 0x100_0000,
        Byte(t + 19) + Byte(t + 20) * 0x100,
        metrics);
    }
  }

  /** From these bytes a fetch on an empty buffer keeps those from index `k` on, counts as many packets as there are in
      `ps`, and the pops that follow return exactly these packets in order and then an error. */
  predicate FetchesBack(fifo: seq<uint8>, past: seq<uint8>, k: nat, ps: seq<RxPacket>)
    requires k <= |fifo| <= BUFFER_SIZE
  {
    var mem, size := Moved(fifo, k) + past, |fifo| - k;
    && Usable(fifo, past) && FirstSync(fifo, 0) == k
    && CountWalk(mem, size, 0) == Some(|ps|) && PopsTo(mem, size, 0, ps)
  }

  lemma {:induction false} MovedPrefix(prefix: seq<uint8>, g: seq<uint8>, past: seq<uint8>)
    requires |prefix| + |g| <= BUFFER_SIZE
    ensures g <= Moved(prefix + g, |prefix|) + past
  {
    assert (prefix + g)[|prefix|..] == g;
  }

  lemma {:induction false} KeptBytes(prefix: seq<uint8>, g: seq<uint8>, past: seq<uint8>, ps: seq<RxPacket>)
    requires |g| >= 23 && |prefix| + |g| <= BUFFER_SIZE && FirstSync(prefix + g, 0) == |prefix|
    requires var mem := Moved(prefix + g, |prefix|) + past;
             CountWalk(mem, |g|, 0) == Some(|ps|) && |g| <= |mem| && PopsTo(mem, |g|, 0, ps)
    ensures FetchesBack(prefix + g, past, |prefix|, ps)
  {
  }

  /** The round trip: any non-empty list of valid packets, with any ignored bits, behind any prefix in which no syncword
      starts. */
  lemma {:induction false} FetchRoundTrip(prefix: seq<uint8>, ps: seq<RxPacket>, xs: seq<Spare>, past: seq<uint8>)
    requires ps != [] && AllValid(ps, xs)
    requires forall j :: 0 <= j < |prefix| ==> !SyncIn(prefix, j)
    requires |prefix| + |Concat(EncodeAll(ps, xs))| <= BUFFER_SIZE
    ensures FetchesBack(prefix + Concat(EncodeAll(ps, xs)), past, |prefix|, ps)
  {
    var g := Concat(EncodeAll(ps, xs));
    MovedPrefix(prefix, g, past);
    RoundTrip(prefix, ps, xs, Moved(prefix + g, |prefix|) + past);
    KeptBytes(prefix, g, past, ps);
  }
}
