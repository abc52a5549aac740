/** The exact conditions under which a GPS message survives every split into reads. */
module GpsSplit {
  import opened Word32
  import opened GpsWindow
  import opened GpsStream

  /* ---- Buffered however it is split ---- */

  /** Every incomplete part of the message stays buffered, however it is split into reads. */
  ghost predicate AlwaysBuffered(f: seq<uint8>) {
    forall chunks: seq<seq<uint8>> ::
      (forall i :: 0 <= i < |chunks| ==> |chunks[i]| <= MIN_MSG_SIZE) && ProperPrefix(Stream(chunks), f) ==>
        Window(chunks) == Stream(chunks)
  }

  lemma {:induction false} SteadyBuffered(f: seq<uint8>, chunks: seq<seq<uint8>>)
    requires Steady(f) && ProperPrefix(Stream(chunks), f)
    requires forall i :: 0 <= i < |chunks| ==> |chunks[i]| <= MIN_MSG_SIZE
    ensures Window(chunks) == Stream(chunks)
  {
    assert Joined([f]) == f + Joined([]) == f;
    var k := WindowInStep([f], chunks);
    OnlyBegun(f, Stream(chunks), k, Window(chunks));
  }

  lemma {:induction false} OnlyBegun(f: seq<uint8>, stream: seq<uint8>, k: nat, w: seq<uint8>)
    requires InStep([f], stream, k, w) && |stream| < |f|
    ensures w == stream
  {
    assert Joined([f]) == f + Joined([]) == f;
    assert [f][..0] == [] && [f][..1] == [f];
  }

  /** The first `n` bytes, read one at a time. */
  function OneByOne(f: seq<uint8>, n: nat): seq<seq<uint8>>
    requires n <= |f|
  {
    seq(n, i requires 0 <= i < n => [f[i]])
  }

  lemma {:induction false} StreamOneByOne(f: seq<uint8>, n: nat)
    requires n <= |f|
    ensures Stream(OneByOne(f, n)) == f[..n]
  {
    if n > 0 {
      StreamOneByOne(f, n - 1);
      assert OneByOne(f, n)[..n - 1] == OneByOne(f, n - 1);
    }
  }

  lemma {:induction false} NothingDropped(w: seq<uint8>, chunk: seq<uint8>)
    requires Kept(w, chunk) == w + chunk
    ensures FrameEnd(w + chunk) == 0 && |w + chunk| < LONGEST_MSG
  {
  }

  lemma {:induction false} BufferedPrefix(f: seq<uint8>, n: nat)
    requires AlwaysBuffered(f) && n < |f|
    ensures FrameEnd(f[..n]) == 0 && n < LONGEST_MSG
  {
    if n > 0 {
      StreamOneByOne(f, n - 1);
      StreamOneByOne(f, n);
      assert OneByOne(f, n)[..n - 1] == OneByOne(f, n - 1);
      assert Window(OneByOne(f, n - 1)) == f[..n - 1] && Window(OneByOne(f, n)) == f[..n];
      assert f[..n - 1] + [f[n - 1]] == f[..n];
      NothingDropped(f[..n - 1], [f[n - 1]]);
    }
  }

  /** A message survives every split into reads if and only if it contains no frame before it is complete, and is no
      longer than 121 bytes. */
  lemma {:induction false} AlwaysBufferedIff(f: seq<uint8>)
    requires IsFrame(f)
    ensures AlwaysBuffered(f) <==> Quiet(f) && |f| <= 121
  {
    if AlwaysBuffered(f) {
      forall n | 0 <= n < |f| ensures FrameEnd(f[..n]) == 0 {
        BufferedPrefix(f, n);
      }
      BufferedPrefix(f, |f| - 1);
    }
    if Quiet(f) && |f| <= LONGEST_MSG {
      forall chunks: seq<seq<uint8>> |
        (forall i :: 0 <= i < |chunks| ==> |chunks[i]| <= MIN_MSG_SIZE) && ProperPrefix(Stream(chunks), f)
        ensures Window(chunks) == Stream(chunks)
      {
        SteadyBuffered(f, chunks);
      }
    }
  }

  /* ---- Recognised however it is split ---- */

  /** Behind the noise the message is recognised, however both are split into reads. */
  ghost predicate RecognisedBehind(noise: seq<uint8>, f: seq<uint8>) {
    forall chunks: seq<seq<uint8>> ::
      (forall i :: 0 <= i < |chunks| ==> |chunks[i]| <= MIN_MSG_SIZE) && Stream(chunks) == noise + f ==> f in Log(chunks)
  }

  lemma {:induction false} ReachableRecognised(g: Segment, chunks: seq<seq<uint8>>)
    requires Reachable(g) && Stream(chunks) == Bytes(g)
    requires forall i :: 0 <= i < |chunks| ==> |chunks[i]| <= MIN_MSG_SIZE
    ensures Log(chunks) == [g.msg]
  {
    OneSegment(g);
    var k, part := WindowBehindNoise([g], chunks);
    AllThere(g, k, part, Window(chunks));
  }

  lemma {:induction false} OneSegment(g: Segment)
    ensures AllBytes([g]) == [Bytes(g)] && Messages([g]) == [g.msg] && Joined(AllBytes([g])) == Bytes(g)
  {
    assert AllBytes([g]) == [Bytes(g)];
    assert Joined([Bytes(g)]) == Bytes(g) + Joined([]) == Bytes(g);
  }

  lemma {:induction false} AllThere(g: Segment, k: nat, part: seq<uint8>, w: seq<uint8>)
    requires Holding([g], Bytes(g), k, part, w)
    ensures k == 1 && Messages([g])[..k] == [g.msg]
  {
    OneSegment(g);
    assert [Bytes(g)][..0] == [];
    assert Joined([Bytes(g)][..0]) + part == part;
  }

  lemma {:induction false} FramesFit(s: seq<uint8>, rd: nat, size: seq<uint8> -> nat, g: seq<uint8>)
    requires rd <= |s| && g in FramesFrom(s, rd, size)
    ensures |g| <= |s|
    decreases |s| - rd
  {
    var n := size(s[rd..]);
    if 0 < n <= |s| - rd {
      if g != s[rd..rd + n] {
        FramesFit(s, rd + n, size, g);
      }
    } else {
      FramesFit(s, rd + 1, size, g);
    }
  }

  /** What is in the buffer after the first `n` bytes were read one by one. */
  function WindowAt(b: seq<uint8>, n: nat): seq<uint8>
    requires n <= |b|
  {
    if n == 0 then [] else Kept(WindowAt(b, n - 1), [b[n - 1]])
  }

  /** What byte `i` makes recognised. */
  function FramesAt(b: seq<uint8>, i: nat): seq<seq<uint8>> {
    if i < |b| then Recognised(WindowAt(b, i), [b[i]]) else []
  }

  function Flat(frames: nat -> seq<seq<uint8>>, n: nat): seq<seq<uint8>> {
    if n == 0 then [] else Flat(frames, n - 1) + frames(n - 1)
  }

  lemma {:induction false} InFlat(frames: nat -> seq<seq<uint8>>, n: nat, f: seq<uint8>) returns (i: nat)
    requires f in Flat(frames, n)
    ensures i < n && f in frames(i)
    decreases n
  {
    if f in frames(n - 1) {
      i := n - 1;
    } else {
      i := InFlat(frames, n - 1, f);
    }
  }

  lemma {:induction false} OneByOneWindow(b: seq<uint8>, n: nat)
    requires n <= |b|
    ensures Window(OneByOne(b, n)) == WindowAt(b, n)
  {
    if n > 0 {
      OneByOneWindow(b, n - 1);
      assert OneByOne(b, n)[..n - 1] == OneByOne(b, n - 1);
    }
  }

  lemma {:induction false} OneByOneLast(b: seq<uint8>, n: nat)
    requires n < |b|
    ensures Log(OneByOne(b, n + 1)) == Log(OneByOne(b, n)) + FramesAt(b, n)
  {
    OneByOneWindow(b, n);
    assert OneByOne(b, n + 1)[..n] == OneByOne(b, n);
  }

  lemma {:induction false} OneByOneLog(b: seq<uint8>, n: nat, frames: nat -> seq<seq<uint8>>)
    requires n <= |b| && forall i: nat :: i < |b| ==> Log(OneByOne(b, i + 1)) == Log(OneByOne(b, i)) + frames(i)
    ensures Log(OneByOne(b, n)) == Flat(frames, n)
  {
    if n > 0 {
      OneByOneLog(b, n - 1, frames);
      assert Log(OneByOne(b, n - 1 + 1)) == Log(OneByOne(b, n - 1)) + frames(n - 1);
    }
  }

  lemma {:induction false} WindowAtSuffix(b: seq<uint8>, n: nat)
    requires n <= |b|
    ensures IsSuffix(WindowAt(b, n), b[..n]) && |WindowAt(b, n)| < LONGEST_MSG
  {
    StreamOneByOne(b, n);
    WindowIsSuffix(OneByOne(b, n));
    OneByOneWindow(b, n);
  }

  lemma {:induction false} NextSuffix(b: seq<uint8>, n: nat, w: seq<uint8>)
    requires n < |b| && IsSuffix(w, b[..n])
    ensures IsSuffix(w + [b[n]], b[..n + 1])
  {
    SuffixGrows(w, b[..n], [b[n]], 0);
    assert b[..n] + [b[n]] == b[..n + 1];
  }

  /** What grows by at most one at every step, and is large enough in the end, was so all along. */
  lemma {:induction false} GrowsByOne(len: nat -> nat, noise: nat, n: nat, m: nat)
    requires m <= n && len(n) >= n - noise && forall i: nat :: i < n ==> len(i + 1) <= len(i) + 1
    ensures len(m) >= m - noise
    decreases n
  {
    if m < n {
      assert len(n - 1 + 1) <= len(n - 1) + 1;
      GrowsByOne(len, noise, n - 1, m);
    }
  }

  /** What is recognised in the end of the noise and the start of the message is no longer than that start. */
  lemma {:induction false} FramesInMessage(noise: seq<uint8>, f: seq<uint8>, n: nat, s: seq<uint8>, g: seq<uint8>)
    requires NoSync(noise) && n <= |noise + f| && IsSuffix(s, (noise + f)[..n]) && g in FramesFrom(s, 0, FrameSize)
    ensures |g| <= |s| && |g| <= if n <= |noise| then 0 else n - |noise|
  {
    var m := if n <= |noise| then 0 else n - |noise|;
    FramesFit(s, 0, FrameSize, g);
    if |s| > m {
      var z := s[..|s| - m];
      assert s == z + s[|s| - m..];
      forall i | 0 <= i < |z| ensures !IsSync(z[i]) {
        assert z[i] == noise[n - |s| + i];
      }
      NoiseSkipped(z, s[|s| - m..]);
      FramesFit(s[|s| - m..], 0, FrameSize, g);
    }
  }

  /** Read one by one, the message is only recognised by its last byte, with all others still in the buffer. */
  lemma {:induction false} RecognisedLast(noise: seq<uint8>, f: seq<uint8>, b: seq<uint8>) returns (last: nat)
    requires b == noise + f && NoSync(noise) && f != [] && f in Log(OneByOne(b, |b|))
    ensures last + 1 == |b| && Complete(|noise|, b, last)
  {
    var frames := (i: nat) => FramesAt(b, i);
    last := RecognisedAt(b, f, frames);
    LastWindow(noise, f, b, last, frames);
  }

  lemma {:induction false} RecognisedAt(b: seq<uint8>, f: seq<uint8>, frames: nat -> seq<seq<uint8>>) returns (i: nat)
    requires f in Log(OneByOne(b, |b|)) && forall i: nat :: frames(i) == FramesAt(b, i)
    ensures i < |b| && f in frames(i)
  {
    forall i: nat | i < |b| ensures Log(OneByOne(b, i + 1)) == Log(OneByOne(b, i)) + frames(i) {
      OneByOneLast(b, i);
    }
    OneByOneLog(b, |b|, frames);
    i := InFlat(frames, |b|, f);
  }

  lemma {:induction false} LastWindow(
    noise: seq<uint8>, f: seq<uint8>, b: seq<uint8>, i: nat, frames: nat -> seq<seq<uint8>>)
    requires b == noise + f && NoSync(noise) && f != [] && i < |b| && f in frames(i) && frames(i) == FramesAt(b, i)
    ensures i + 1 == |b| && Complete(|noise|, b, i)
  {
    WindowAtSuffix(b, i);
    LastByte(noise, f, b, i, WindowAt(b, i));
  }

  lemma {:induction false} LastByte(noise: seq<uint8>, f: seq<uint8>, b: seq<uint8>, i: nat, w: seq<uint8>)
    requires b == noise + f && NoSync(noise) && f != [] && i < |b| && IsSuffix(w, b[..i]) && f in Recognised(w, [b[i]])
    ensures i == |b| - 1 && |w| >= |f| - 1
  {
    NextSuffix(b, i, w);
    FramesInMessage(noise, f, i + 1, w + [b[i]], f);
  }

  function LengthAt(b: seq<uint8>, n: nat): nat {
    if n <= |b| then |WindowAt(b, n)| else 0
  }

  /** After `n` bytes the buffer holds all that has arrived of the message. */
  ghost predicate Complete(noise: nat, b: seq<uint8>, n: nat) {
    n <= |b| && LengthAt(b, n) >= n - noise
  }

  lemma {:induction false} LengthStep(b: seq<uint8>, n: nat)
    requires n < |b|
    ensures LengthAt(b, n + 1) <= LengthAt(b, n) + 1
  {
    KeptShort(WindowAt(b, n), [b[n]]);
  }

  lemma {:induction false} KeptShort(w: seq<uint8>, chunk: seq<uint8>)
    ensures |Kept(w, chunk)| <= |w + chunk| - FrameEnd(w + chunk)
    ensures FrameEnd(w + chunk) == 0 ==> |Kept(w, chunk)| % MIN_MSG_SIZE == |w + chunk| % MIN_MSG_SIZE
  {
  }

  /** Then nothing was recognised by the last of them. */
  lemma {:induction false} NothingYet(noise: seq<uint8>, f: seq<uint8>, b: seq<uint8>, n: nat)
    requires b == noise + f && NoSync(noise) && Complete(|noise|, b, n + 1)
    ensures FrameEnd(WindowAt(b, n) + [b[n]]) == 0
    ensures n + 1 > |noise| ==> FrameEnd(f[..n + 1 - |noise|]) == 0
  {
    WindowAtSuffix(b, n);
    NextSuffix(b, n, WindowAt(b, n));
    KeptShort(WindowAt(b, n), [b[n]]);
    SuffixQuiet(noise, f, n + 1, WindowAt(b, n) + [b[n]]);
  }

  lemma {:induction false} SuffixQuiet(noise: seq<uint8>, f: seq<uint8>, n: nat, s: seq<uint8>)
    requires NoSync(noise) && n <= |noise + f| && IsSuffix(s, (noise + f)[..n])
    requires |s| - FrameEnd(s) >= n - |noise|
    ensures FrameEnd(s) == 0 && (n > |noise| ==> FrameEnd(f[..n - |noise|]) == 0)
  {
    var m := if n <= |noise| then 0 else n - |noise|;
    var z := s[..|s| - m];
    assert s == z + f[..m];
    forall i | 0 <= i < |z| ensures !IsSync(z[i]) {
      assert z[i] == noise[n - |s| + i];
    }
    NoiseSkipped(z, f[..m]);
  }

  lemma {:induction false} AllComplete(noise: nat, b: seq<uint8>, n: nat, len: nat -> nat)
    requires n <= |b| && (forall i: nat :: len(i) == LengthAt(b, i)) && len(n) >= n - noise
    ensures forall m: nat :: m <= n ==> len(m) >= m - noise
  {
    forall i: nat | i < n ensures len(i + 1) <= len(i) + 1 {
      LengthStep(b, i);
    }
    forall m: nat | m <= n ensures len(m) >= m - noise {
      GrowsByOne(len, noise, n, m);
    }
  }

  predicate Congruent(a: nat, b: nat) {
    a % MIN_MSG_SIZE == b % MIN_MSG_SIZE
  }

  lemma {:induction false} CongruentNext(a: nat, b: nat)
    ensures Congruent(a + 1, b + 1) <==> Congruent(a, b)
  {
    NextRemainder(a);
    NextRemainder(b);
  }

  lemma {:induction false} NextRemainder(a: nat)
    ensures (a + 1) % MIN_MSG_SIZE == if a % MIN_MSG_SIZE == MIN_MSG_SIZE - 1 then 0 else a % MIN_MSG_SIZE + 1
  {
  }

  /** What grows by one, less a multiple of eight, at every step. */
  lemma {:induction false} CountsModulo(len: nat -> nat, n: nat)
    requires len(0) == 0 && forall i: nat :: i < n ==> Congruent(len(i + 1), len(i) + 1)
    ensures Congruent(len(n), n)
  {
    if n > 0 {
      CountsModulo(len, n - 1);
      CongruentNext(len(n - 1), n - 1);
      assert Congruent(len(n - 1 + 1), len(n - 1) + 1);
    }
  }

  lemma {:induction false} OneMore(noise: seq<uint8>, f: seq<uint8>, b: seq<uint8>, n: nat)
    requires b == noise + f && NoSync(noise) && Complete(|noise|, b, n + 1)
    ensures Congruent(LengthAt(b, n + 1), LengthAt(b, n) + 1)
  {
    NothingYet(noise, f, b, n);
    KeptShort(WindowAt(b, n), [b[n]]);
  }

  /** Bytes are only dropped by eight. */
  lemma {:induction false} DroppedByEight(noise: seq<uint8>, f: seq<uint8>, b: seq<uint8>, n: nat)
    requires b == noise + f && NoSync(noise) && Complete(|noise|, b, n)
    ensures Congruent(LengthAt(b, n), n)
  {
    var len := (i: nat) => LengthAt(b, i);
    AllComplete(|noise|, b, n, len);
    forall i: nat | i < n ensures Congruent(len(i + 1), len(i) + 1) {
      assert len(i + 1) >= i + 1 - |noise|;
      OneMore(noise, f, b, i);
    }
    CountsModulo(len, n);
  }

  lemma {:induction false} OneByOneRecognised(noise: seq<uint8>, f: seq<uint8>, b: seq<uint8>)
    requires b == noise + f && NoSync(noise) && f != [] && f in Log(OneByOne(b, |b|))
    ensures Quiet(f) && |noise| % MIN_MSG_SIZE + |f| <= LONGEST_MSG
  {
    var last := RecognisedLast(noise, f, b);
    CompleteQuiet(noise, f, b, last);
    ShortIfComplete(noise, f, b, last);
  }

  lemma {:induction false} CompleteQuiet(noise: seq<uint8>, f: seq<uint8>, b: seq<uint8>, last: nat)
    requires b == noise + f && NoSync(noise) && last + 1 == |b| && Complete(|noise|, b, last)
    ensures Quiet(f)
  {
    var len := (i: nat) => LengthAt(b, i);
    AllComplete(|noise|, b, last, len);
    QuietIfComplete(noise, f, b, last, len);
  }

  lemma {:induction false} QuietIfComplete(noise: seq<uint8>, f: seq<uint8>, b: seq<uint8>, last: nat, len: nat -> nat)
    requires b == noise + f && NoSync(noise) && last + 1 == |b|
    requires forall m: nat :: m <= last ==> len(m) >= m - |noise|
    requires forall m: nat :: len(m) == LengthAt(b, m)
    ensures Quiet(f)
  {
    forall n | 0 <= n < |f| ensures FrameEnd(f[..n]) == 0 {
      if n > 0 {
        var m: nat := |noise| + n - 1;
        assert len(m + 1) >= m + 1 - |noise|;
        PrefixQuiet(noise, f, b, m, n);
      }
    }
  }

  lemma {:induction false} PrefixQuiet(noise: seq<uint8>, f: seq<uint8>, b: seq<uint8>, m: nat, n: nat)
    requires b == noise + f && NoSync(noise) && Complete(|noise|, b, m + 1) && m + 1 == |noise| + n && n > 0
    ensures n <= |f| && FrameEnd(f[..n]) == 0
  {
    NothingYet(noise, f, b, m);
  }

  lemma {:induction false} ShortIfComplete(noise: seq<uint8>, f: seq<uint8>, b: seq<uint8>, last: nat)
    requires b == noise + f && NoSync(noise) && last + 1 == |b| && f != [] && Complete(|noise|, b, last)
    ensures |noise| % MIN_MSG_SIZE + |f| <= LONGEST_MSG
  {
    DroppedByEight(noise, f, b, last);
    WindowAtSuffix(b, last);
    LeftOver(|noise|, |f|, last, LengthAt(b, last));
  }

  lemma {:induction false} LeftOver(noise: nat, msg: nat, last: nat, w: nat)
    requires msg > 0 && last + 1 == noise + msg && w >= last - noise && Congruent(w, last) && w < LONGEST_MSG
    ensures noise % MIN_MSG_SIZE + msg <= LONGEST_MSG
  {
    SameRemainder(w - (msg - 1), noise, msg - 1);
  }

  lemma {:induction false} SameRemainder(a: nat, b: nat, c: nat)
    requires Congruent(a + c, b + c)
    ensures Congruent(a, b)
    decreases c
  {
    if c > 0 {
      CongruentNext(a + c - 1, b + c - 1);
      SameRemainder(a, b, c - 1);
    }
  }

  /** The exact condition: behind given noise without sync characters a message is recognised under every split into reads,
      if and only if it contains no frame before it is complete, and is no longer than 121 bytes less what remains of the
      noise when eights are dropped. */
  lemma {:induction false} RecognisedBehindIff(noise: seq<uint8>, f: seq<uint8>)
    requires IsFrame(f) && NoSync(noise)
    ensures RecognisedBehind(noise, f) <==> Quiet(f) && |noise| % 8 + |f| <= 121
  {
    if RecognisedBehind(noise, f) {
      var b := noise + f;
      StreamOneByOne(b, |b|);
      assert b[..|b|] == b;
      OneByOneRecognised(noise, f, b);
    }
    if Quiet(f) && |noise| % MIN_MSG_SIZE + |f| <= LONGEST_MSG {
      forall chunks: seq<seq<uint8>> |
        (forall i :: 0 <= i < |chunks| ==> |chunks[i]| <= MIN_MSG_SIZE) && Stream(chunks) == noise + f
        ensures f in Log(chunks)
      {
        ReachableRecognised(Segment(noise, f), chunks);
      }
    }
  }

  /** Read from an empty buffer, the message is recognised however it is split. */
  ghost predicate AlwaysRecognised(f: seq<uint8>) {
    RecognisedBehind([], f)
  }

  /** Without noise the limit is 121 bytes. */
  lemma {:induction false} AlwaysRecognisedIff(f: seq<uint8>)
    requires IsFrame(f)
    ensures AlwaysRecognised(f) <==> Quiet(f) && |f| <= 121
  {
    RecognisedBehindIff([], f);
  }

  /** Resynchronisation: behind whatever noise without sync characters, the limit is 114 bytes. */
  lemma {:induction false} ResynchronisesIff(f: seq<uint8>)
    requires IsFrame(f)
    ensures (forall noise :: NoSync(noise) ==> RecognisedBehind(noise, f)) <==>
            Quiet(f) && |f| <= 114
  {
    if forall noise :: NoSync(noise) ==> RecognisedBehind(noise, f) {
      var noise := seq<uint8>(7, _ => 0);
      assert NoSync(noise);
      RecognisedBehindIff(noise, f);
    }
    if Quiet(f) && |f| <= LONGEST_MSG - MIN_MSG_SIZE + 1 {
      forall noise | NoSync(noise) ensures RecognisedBehind(noise, f) {
        RecognisedBehindIff(noise, f);
      }
    }
  }

  /* ---- Messages that carry others ---- */

  lemma {:induction false} FrameInside(s: seq<uint8>, rd: nat, end: nat, size: seq<uint8> -> nat, i: nat)
    requires end <= rd <= i < |s| && 0 < size(s[i..]) <= |s| - i
    ensures EndFrom(s, rd, end, size) > 0
    decreases |s| - rd
  {
    if !(0 < size(s[rd..]) <= |s| - rd) {
      FrameInside(s, rd + 1, end, size, i);
    }
  }

  /** A message that carries another one does not: the inner one is recognised while the outer one is incomplete, and the
      header of the outer one is dropped with it. */
  lemma {:induction false} NestedNotQuiet(cls: uint8, id: uint8, inner: seq<uint8>)
    requires IsFrame(inner) && |inner| < 0x1_0000
    ensures !Quiet(EncodeUbx(cls, id, inner))
  {
    var f := EncodeUbx(cls, id, inner);
    var s := f[..|f| - 2];
    assert s[6..] == inner == inner + [];
    FrameInside(s, 0, 0, FrameSize, 6);
  }

  /** So it is lost when it arrives byte by byte: nothing that is recognised is this message. */
  lemma {:induction false} NestedLost(cls: uint8, id: uint8, inner: seq<uint8>)
    requires IsFrame(inner) && |inner| < 0x1_0000
    ensures var f := EncodeUbx(cls, id, inner);
            Stream(OneByOne(f, |f|)) == f && f !in Log(OneByOne(f, |f|))
  {
    var f := EncodeUbx(cls, id, inner);
    StreamOneByOne(f, |f|);
    assert f[..|f|] == f;
    NestedNotQuiet(cls, id, inner);
    assert [] + f == f;
    if f in Log(OneByOne(f, |f|)) {
      OneByOneRecognised([], f, f);
    }
  }
}
