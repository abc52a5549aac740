/** The serial buffer of the GPS thread (clusterduck/src/clusterduckd.c) and the framing it relies on
    (libloragw/src/loragw_gps.c). */
module GpsWindow {
  import opened Word32
  import opened RxFrame
  import opened NmeaFrame

  const BUFFER_SIZE: nat := 128
  const MIN_MSG_SIZE: nat := 8
  const UBX_SYNC_CHAR: uint8 := 0xB5
  const UBX_SYNC_CHAR_2: uint8 := 0x62

  datatype GpsMsg = Ignored | Invalid | Incomplete | UbxNavTimegps

  /* ---- UBX framing ---- */

  /** The second Fletcher sum: the sum of the running first sums. */
  function SumOfSums(s: seq<uint8>): uint8 {
    if s == [] then 0 else (SumOfSums(s[..|s|-1]) + Sum(s)) % 256
  }

  /** Header, payload of the announced length, and checksum. */
  function UbxSize(low: nat, high: nat): nat {
    6 + (low + high * 0x100) + 2
  }

  /** The message kind and the size its header announces. */
  function ParseUbx(s: seq<uint8>): (GpsMsg, nat) {
    if |s| < 8 || s[0] != UBX_SYNC_CHAR || s[1] != UBX_SYNC_CHAR_2 then (Ignored, 0)
    else
      var size := UbxSize(s[4], s[5]);
      if size > |s| then (Incomplete, size)
      else if s[size-2] != Sum(s[2..size-2]) || s[size-1] != SumOfSums(s[2..size-2]) then (Invalid, size)
      else if s[2] == 0x01 && s[3] == 0x20 then (UbxNavTimegps, size)
      else (Ignored, size)
  }

  function UbxBody(cls: uint8, id: uint8, payload: seq<uint8>): seq<uint8>
    requires |payload| < 0x1_0000
  {
    [cls, id, |payload| % 0x100, |payload| / 0x100] + payload
  }

  /** The sum in which each byte counts once for every byte from it on. */
  function Weighted(s: seq<uint8>): nat {
    if s == [] then 0 else |s| * s[0] + Weighted(s[1..])
  }

  lemma {:induction false} WeightedSnoc(s: seq<uint8>, b: uint8)
    ensures Weighted(s + [b]) == Weighted(s) + Total(s) + b
  {
    if s == [] {
      assert s + [b] == [b];
      assert Weighted([b]) == 1 * b + Weighted([]);
    } else {
      assert (s + [b])[1..] == s[1..] + [b];
      WeightedSnoc(s[1..], b);
      assert (|s| + 1) * s[0] == |s| * s[0] + s[0];
    }
  }

  lemma {:induction false} WeightedLast(s: seq<uint8>)
    requires s != []
    ensures Weighted(s) == Weighted(s[..|s|-1]) + Total(s)
  {
    var n := |s| - 1;
    assert s[..n] + [s[n]] == s;
    WeightedSnoc(s[..n], s[n]);
    TotalSnoc(s[..n], s[n]);
  }

  /** The second running sum is that sum modulo 256. */
  lemma {:induction false} SumOfSumsIs(s: seq<uint8>)
    ensures SumOfSums(s) == Weighted(s) % 256
  {
    if s != [] {
      var init := s[..|s|-1];
      SumOfSumsIs(init);
      WeightedLast(s);
      SumIsTotal(s);
      ModSum(Weighted(init), Total(s));
      assert SumOfSums(s) == (SumOfSums(init) + Sum(s)) % 256;
    }
  }

  lemma {:induction false} ModSum(x: nat, y: nat)
    ensures (x % 256 + y % 256) % 256 == (x + y) % 256
  {
    ModAdd(x, y % 256);
    ModAdd(y, x);
  }

  /** The poll of NAV-TIMEGPS as it goes over the line. */
  lemma {:induction false} UbxPoll()
    ensures EncodeUbx(0x01, 0x20, []) == [0xB5, 0x62, 0x01, 0x20, 0x00, 0x00, 0x21, 0x64]
  {
    var b := UbxBody(0x01, 0x20, []);
    assert b == [0x01, 0x20, 0, 0] && b[1..] == [0x20, 0, 0] && b[1..][1..] == [0, 0];
    assert Total([0, 0]) == 0 && Weighted([0, 0]) == 0 by {
      assert [0, 0][1..] == [0] && [0][1..] == [];
    }
  }

  function EncodeUbx(cls: uint8, id: uint8, payload: seq<uint8>): seq<uint8>
    requires |payload| < 0x1_0000
  {
    var b := UbxBody(cls, id, payload);
    [0xB5, 0x62] + b + [Total(b) % 256, Weighted(b) % 256]
  }

  /** A well-formed message is recognised, whatever follows it in the buffer. */
  lemma {:induction false} UbxRecognised(cls: uint8, id: uint8, payload: seq<uint8>, rest: seq<uint8>)
    requires |payload| < 0x1_0000
    ensures var f := EncodeUbx(cls, id, payload);
            && |f| == 8 + |payload|
            && ParseUbx(f + rest) == (if cls == 0x01 && id == 0x20 then UbxNavTimegps else Ignored, |f|)
  {
    var b, f := UbxBody(cls, id, payload), EncodeUbx(cls, id, payload);
    var s := f + rest;
    SumIsTotal(b);
    SumOfSumsIs(b);
    assert s[2] == b[0] && s[3] == b[1] && s[4] == b[2] && s[5] == b[3];
    assert s[2..|f|-2] == b;
    assert s[|f|-2] == Sum(b) && s[|f|-1] == SumOfSums(b);
  }

  /** Changing one byte of a recognised message, outside its sync characters and its length, is noticed. */
  lemma {:induction false} UbxCorrupted(s: seq<uint8>, k: nat, b: uint8)
    requires ParseUbx(s).0 in {Ignored, UbxNavTimegps} && 2 <= k < ParseUbx(s).1 && k != 4 && k != 5 && b != s[k]
    ensures ParseUbx(s[k := b]) == (Invalid, ParseUbx(s).1)
  {
    var r, n := s[k := b], ParseUbx(s).1;
    if k < n - 2 {
      SumDiffers(s[2..n-2], k - 2, b);
      assert r[2..n-2] == s[2..n-2][k - 2 := b];
    } else {
      assert r[2..n-2] == s[2..n-2];
    }
  }

  /* ---- One scan of the buffer ---- */

  /** The size of the frame recognised at the start of `s`, or 0. */
  function FrameSize(s: seq<uint8>): nat {
    if s == [] then 0
    else if s[0] == UBX_SYNC_CHAR then
      var (msg, size) := ParseUbx(s);
      if msg == Incomplete || msg == Invalid then 0 else size
    else if s[0] == DOLLAR then
      var k := Find(s, 0, LF);
      if k < |s| && NmeaAccepted(s[..k + 1]) then k + 1 else 0
    else 0
  }

  /** A recognised frame never extends past the bytes received. */
  lemma {:induction false} FrameFits(s: seq<uint8>)
    ensures FrameSize(s) <= |s|
  {
  }

  /** The end of the last frame recognised when scanning from `rd`, the last one so far ending at `end`; `size` gives the
      size of the frame at the start of some bytes, or 0. */
  function EndFrom(s: seq<uint8>, rd: nat, end: nat, size: seq<uint8> -> nat): (r: nat)
    requires end <= rd <= |s|
    ensures end <= r <= |s|
    decreases |s| - rd
  {
    if rd == |s| then end
    else
      var n := size(s[rd..]);
      if 0 < n <= |s| - rd then EndFrom(s, rd + n, rd + n, size) else EndFrom(s, rd + 1, end, size)
  }

  /** The frames recognised by that scan, in order: each is handed to the part of the gateway that it concerns. */
  function FramesFrom(s: seq<uint8>, rd: nat, size: seq<uint8> -> nat): seq<seq<uint8>>
    requires rd <= |s|
    decreases |s| - rd
  {
    if rd == |s| then []
    else
      var n := size(s[rd..]);
      if 0 < n <= |s| - rd then [s[rd..rd + n]] + FramesFrom(s, rd + n, size) else FramesFrom(s, rd + 1, size)
  }

  /** What the scan from `rd` on, with these frames recognised before it, ends with. */
  ghost predicate Leads(s: seq<uint8>, rd: nat, end: nat, frames: seq<seq<uint8>>, size: seq<uint8> -> nat) {
    && end <= rd <= |s| && EndFrom(s, 0, 0, size) == EndFrom(s, rd, end, size)
    && FramesFrom(s, 0, size) == frames + FramesFrom(s, rd, size)
  }

  /** One step of the scan. */
  lemma {:induction false} ScanStep(
    s: seq<uint8>, rd: nat, end: nat, frames: seq<seq<uint8>>, size: seq<uint8> -> nat, n: nat)
    requires Leads(s, rd, end, frames, size) && rd < |s| && n == size(s[rd..]) <= |s| - rd
    ensures if n > 0 then Leads(s, rd + n, rd + n, frames + [s[rd..rd + n]], size)
            else Leads(s, rd + 1, end, frames, size)
  {
    if n > 0 {
      Regroup(frames, s[rd..rd + n], FramesFrom(s, rd + n, size));
    }
  }

  lemma {:induction false} Regroup(frames: seq<seq<uint8>>, f: seq<uint8>, rest: seq<seq<uint8>>)
    ensures frames + ([f] + rest) == (frames + [f]) + rest
  {
  }

  lemma {:induction false} ScanDone(s: seq<uint8>, end: nat, frames: seq<seq<uint8>>)
    requires Leads(s, |s|, end, frames, FrameSize)
    ensures end == FrameEnd(s) && frames == FramesFrom(s, 0, FrameSize)
  {
  }

  /** The end of the last frame in the buffer. */
  function FrameEnd(s: seq<uint8>): (r: nat)
    ensures r <= |s|
  {
    EndFrom(s, 0, 0, FrameSize)
  }

  /** The bytes kept after a read: those behind the last frame, less the oldest 8 when the next read might not fit. */
  function Kept(w: seq<uint8>, chunk: seq<uint8>): seq<uint8> {
    Trimmed(Unframed(w + chunk))
  }

  /** The frames recognised in a read. */
  function Recognised(w: seq<uint8>, chunk: seq<uint8>): seq<seq<uint8>> {
    FramesFrom(w + chunk, 0, FrameSize)
  }

  /** The bytes behind the last frame. */
  function Unframed(s: seq<uint8>): seq<uint8> {
    s[FrameEnd(s)..]
  }

  function Trimmed(s: seq<uint8>): seq<uint8> {
    if BUFFER_SIZE - |s| < MIN_MSG_SIZE then s[MIN_MSG_SIZE..] else s
  }

  ghost predicate IsSuffix(w: seq<uint8>, s: seq<uint8>) {
    |w| <= |s| && w == s[|s| - |w|..]
  }

  lemma {:induction false} SuffixGrows(w: seq<uint8>, s: seq<uint8>, chunk: seq<uint8>, k: nat)
    requires IsSuffix(w, s) && k <= |w + chunk|
    ensures IsSuffix((w + chunk)[k..], s + chunk)
  {
    var t := s + chunk;
    var n := |t| - |w + chunk|;
    assert t[n..] == w + chunk;
    assert (w + chunk)[k..] == t[n + k..];
  }

  lemma {:induction false} KeptSuffix(w: seq<uint8>, s: seq<uint8>, chunk: seq<uint8>)
    requires IsSuffix(w, s) && |w| <= BUFFER_SIZE - MIN_MSG_SIZE && |chunk| <= MIN_MSG_SIZE
    ensures IsSuffix(Kept(w, chunk), s + chunk)
    ensures |Kept(w, chunk)| <= BUFFER_SIZE - MIN_MSG_SIZE
  {
    var u := w + chunk;
    var end := FrameEnd(u);
    SuffixGrows(w, s, chunk, end);
    if BUFFER_SIZE - |u[end..]| < MIN_MSG_SIZE {
      SuffixGrows(w, s, chunk, end + MIN_MSG_SIZE);
      assert u[end..][MIN_MSG_SIZE..] == u[end + MIN_MSG_SIZE..];
    }
  }

  /* ---- All reads of a stream ---- */

  function Stream(chunks: seq<seq<uint8>>): seq<uint8> {
    if chunks == [] then [] else Stream(chunks[..|chunks|-1]) + chunks[|chunks|-1]
  }

  function Window(chunks: seq<seq<uint8>>): seq<uint8> {
    if chunks == [] then [] else Kept(Window(chunks[..|chunks|-1]), chunks[|chunks|-1])
  }

  /** All frames recognised so far. */
  function Log(chunks: seq<seq<uint8>>): seq<seq<uint8>> {
    if chunks == [] then []
    else Log(chunks[..|chunks|-1]) + Recognised(Window(chunks[..|chunks|-1]), chunks[|chunks|-1])
  }

  /** For every stream and every way it is split into reads: before each read there is room for it, and what is buffered
      is a contiguous suffix of what was received. */
  lemma {:induction false} WindowIsSuffix(chunks: seq<seq<uint8>>)
    requires forall i :: 0 <= i < |chunks| ==> |chunks[i]| <= MIN_MSG_SIZE
    ensures IsSuffix(Window(chunks), Stream(chunks))
    ensures |Window(chunks)| <= BUFFER_SIZE - MIN_MSG_SIZE
  {
    if chunks != [] {
      var before := chunks[..|chunks|-1];
      WindowIsSuffix(before);
      KeptSuffix(Window(before), Stream(before), chunks[|chunks|-1]);
    }
  }

  /* ---- The buffer in place ---- */

  class GpsBuffer {
    const serial: array<uint8>
    var wrIdx: nat
    ghost var log: seq<seq<uint8>>

    ghost predicate Valid()
      reads this
    {
      serial.Length == BUFFER_SIZE && wrIdx <= BUFFER_SIZE - MIN_MSG_SIZE
    }

    constructor ()
      ensures Valid() && fresh(serial) && wrIdx == 0 && log == []
    {
      serial := new uint8[BUFFER_SIZE](_ => 0);
      wrIdx, log := 0, [];
    }

    /** One round of the thread: a read of at most 8 bytes, the scan, and the two moves. A failed or empty read changes
        nothing. */
    method OnRead(chunk: seq<uint8>)
      requires Valid() && |chunk| <= MIN_MSG_SIZE
      modifies this, serial
      ensures Valid()
      ensures serial[..wrIdx] ==
              if chunk == [] then old(serial[..wrIdx]) else Kept(old(serial[..wrIdx]), chunk)
      ensures log == old(log) + if chunk == [] then [] else Recognised(old(serial[..wrIdx]), chunk)
    {
      if chunk == [] {
        return;
      }
      ghost var s := serial[..wrIdx] + chunk;
      Append(chunk);
      var frameEnd;
      ghost var frames;
      frameEnd, frames := Scan();
      log := log + frames;
      if frameEnd != 0 {
        MoveDown(frameEnd);
      }
      assert serial[..wrIdx] == s[frameEnd..];
      if BUFFER_SIZE - wrIdx < MIN_MSG_SIZE {
        MoveDown(MIN_MSG_SIZE);
      }
    }

    method Append(chunk: seq<uint8>)
      requires serial.Length == BUFFER_SIZE && wrIdx + |chunk| <= BUFFER_SIZE
      modifies this`wrIdx, serial
      ensures wrIdx == old(wrIdx) + |chunk| && serial[..wrIdx] == old(serial[..wrIdx]) + chunk
    {
      forall i | 0 <= i < |chunk| {
        serial[wrIdx + i] := chunk[i];
      }
      wrIdx := wrIdx + |chunk|;
    }

    /** The bytes from index `k` on are moved to the start. */
    method MoveDown(k: nat)
      requires serial.Length == BUFFER_SIZE && k <= wrIdx <= BUFFER_SIZE
      modifies this`wrIdx, serial
      ensures wrIdx == old(wrIdx) - k && serial[..wrIdx] == old(serial[k..wrIdx])
    {
      forall i | 0 <= i < wrIdx - k {
        serial[i] := serial[k + i];
      }
      wrIdx := wrIdx - k;
    }

    method Scan() returns (frameEnd: nat, ghost frames: seq<seq<uint8>>)
      requires serial.Length == BUFFER_SIZE && wrIdx <= BUFFER_SIZE
      ensures frameEnd == FrameEnd(serial[..wrIdx]) && frames == FramesFrom(serial[..wrIdx], 0, FrameSize)
    {
      ghost var s := serial[..wrIdx];
      var rd := 0;
      frameEnd, frames := 0, [];
      while rd < wrIdx
        invariant frameEnd <= rd <= wrIdx && Leads(s, rd, frameEnd, frames, FrameSize)
      {
        assert serial[rd..wrIdx] == s[rd..];
        FrameFits(s[rd..]);
        var size := RecogniseFrame(serial[rd..wrIdx]);
        ScanStep(s, rd, frameEnd, frames, FrameSize, size);
        if size > 0 {
          frames := frames + [s[rd..rd + size]];
          rd := rd + size;
          frameEnd := rd;
        } else {
          rd := rd + 1;
        }
      }
      ScanDone(s, frameEnd, frames);
    }
  }

  /** The loops of the framing code, on the bytes from the current read index on. */
  method RecogniseFrame(s: seq<uint8>) returns (size: nat)
    requires s != []
    ensures size == FrameSize(s)
  {
    if s[0] == UBX_SYNC_CHAR {
      var msg;
      msg, size := RecogniseUbx(s);
      if msg == Incomplete || msg == Invalid {
        size := 0;
      }
    } else if s[0] == DOLLAR {
      var k := 0;
      while k < |s| && s[k] != LF
        invariant 0 <= k <= |s| && Find(s, 0, LF) == Find(s, k, LF)
      {
        k := k + 1;
      }
      size := 0;
      if k < |s| {
        var ok := ParseNmea(s[..k + 1]);
        size := if ok then k + 1 else 0;
      }
    } else {
      size := 0;
    }
  }

  method RecogniseUbx(s: seq<uint8>) returns (msg: GpsMsg, size: nat)
    ensures (msg, size) == ParseUbx(s)
  {
    if |s| < 8 || s[0] != UBX_SYNC_CHAR || s[1] != UBX_SYNC_CHAR_2 {
      return Ignored, 0;
    }
    size := UbxSize(s[4], s[5]);
    if size > |s| {
      return Incomplete, size;
    }
    var ckA, ckB := Fletcher(s[2..size-2]);
    if ckA != s[size-2] || ckB != s[size-1] {
      return Invalid, size;
    }
    return if s[2] == 0x01 && s[3] == 0x20 then UbxNavTimegps else Ignored, size;
  }

  method Fletcher(s: seq<uint8>) returns (ckA: uint8, ckB: uint8)
    ensures ckA == Sum(s) && ckB == SumOfSums(s)
  {
    ckA, ckB := 0, 0;
    for i := 0 to |s|
      invariant ckA == Sum(s[..i]) && ckB == SumOfSums(s[..i])
    {
      SumSlice(s, 0, i);
      assert s[0..i] == s[..i] && s[0..i + 1] == s[..i + 1];
      assert s[..i + 1][..i] == s[..i];
      ckA := (ckA + s[i]) % 256;
      ckB := (ckB + ckA) % 256;
    }
    assert s[..|s|] == s;
  }
}
