/** Streams of GPS messages, however the reads split them (clusterduck/src/clusterduckd.c): every message is recognised
    once it has arrived whole, behind any noise without sync characters, provided no message contains another one. */
module GpsStream {
  import opened Word32
  import opened NmeaFrame
  import opened GpsWindow

  /** A message is recognised with its size, whatever follows it. */
  ghost predicate IsFrame(f: seq<uint8>) {
    |f| >= MIN_MSG_SIZE && forall rest :: FrameSize(f + rest) == |f|
  }

  /** No frame is recognised in the message before it is complete. */
  ghost predicate Quiet(f: seq<uint8>) {
    forall n :: 0 <= n < |f| ==> FrameEnd(f[..n]) == 0
  }

  /** The longest message of which every incomplete part stays buffered. */
  const LONGEST_MSG: nat := BUFFER_SIZE - MIN_MSG_SIZE + 1

  ghost predicate Steady(f: seq<uint8>) {
    IsFrame(f) && Quiet(f) && |f| <= LONGEST_MSG
  }

  /* ---- A whole message at the front of the buffer ---- */

  /** The scan does not depend on what lies before it. */
  lemma {:induction false} EndShift(p: seq<uint8>, s: seq<uint8>, rd: nat, end: nat, size: seq<uint8> -> nat)
    requires end <= rd <= |s|
    ensures EndFrom(p + s, |p| + rd, |p| + end, size) == |p| + EndFrom(s, rd, end, size)
    decreases |s| - rd
  {
    if rd < |s| {
      assert (p + s)[|p| + rd..] == s[rd..];
      var n := size(s[rd..]);
      if 0 < n <= |s| - rd {
        EndShift(p, s, rd + n, rd + n, size);
      } else {
        EndShift(p, s, rd + 1, end, size);
      }
    }
  }

  lemma {:induction false} EndBehind(f: seq<uint8>, rest: seq<uint8>, size: seq<uint8> -> nat)
    requires size(f + rest) == |f| > 0
    ensures EndFrom(f + rest, 0, 0, size) == |f| + EndFrom(rest, 0, 0, size)
  {
    assert (f + rest)[0..] == f + rest;
    EndShift(f, rest, 0, 0, size);
  }

  lemma {:induction false} FramesShift(p: seq<uint8>, s: seq<uint8>, rd: nat, size: seq<uint8> -> nat)
    requires rd <= |s|
    ensures FramesFrom(p + s, |p| + rd, size) == FramesFrom(s, rd, size)
    decreases |s| - rd
  {
    if rd < |s| {
      assert (p + s)[|p| + rd..] == s[rd..];
      var n := size(s[rd..]);
      if 0 < n <= |s| - rd {
        assert (p + s)[|p| + rd..|p| + rd + n] == s[rd..rd + n];
        FramesShift(p, s, rd + n, size);
      } else {
        FramesShift(p, s, rd + 1, size);
      }
    }
  }

  lemma {:induction false} FramesBehind(f: seq<uint8>, rest: seq<uint8>, size: seq<uint8> -> nat)
    requires size(f + rest) == |f| > 0
    ensures FramesFrom(f + rest, 0, size) == [f] + FramesFrom(rest, 0, size)
  {
    assert (f + rest)[0..] == f + rest && (f + rest)[0..|f|] == f;
    FramesShift(f, rest, 0, size);
  }

  /** Where the end of the last frame stays put, there is none. */
  lemma {:induction false} NoneRecognised(s: seq<uint8>, rd: nat, end: nat, size: seq<uint8> -> nat)
    requires end <= rd <= |s| && EndFrom(s, rd, end, size) == end
    ensures FramesFrom(s, rd, size) == []
    decreases |s| - rd
  {
    if rd < |s| {
      assert !(0 < size(s[rd..]) <= |s| - rd);
      NoneRecognised(s, rd + 1, end, size);
    }
  }

  lemma {:induction false} UnframedBehind(f: seq<uint8>, rest: seq<uint8>)
    requires IsFrame(f)
    ensures Unframed(f + rest) == Unframed(rest)
  {
    EndBehind(f, rest, FrameSize);
    DropFront(f, rest, FrameEnd(rest));
  }

  lemma {:induction false} DropFront(f: seq<uint8>, rest: seq<uint8>, k: nat)
    requires k <= |rest|
    ensures (f + rest)[|f| + k..] == rest[k..]
  {
  }

  /** A whole message at the front is recognised and removed whole: what is kept is what its followers alone would
      leave. */
  lemma {:induction false} FrameConsumed(w: seq<uint8>, chunk: seq<uint8>, f: seq<uint8>, rest: seq<uint8>)
    requires IsFrame(f) && w + chunk == f + rest
    ensures Kept(w, chunk) == Kept([], rest) && Recognised(w, chunk) == [f] + Recognised([], rest)
  {
    UnframedBehind(f, rest);
    FramesBehind(f, rest, FrameSize);
    assert [] + rest == rest;
  }

  /* ---- Noise ---- */

  predicate IsSync(b: uint8) {
    b == UBX_SYNC_CHAR || b == DOLLAR
  }

  lemma {:induction false} NoFrames(s: seq<uint8>, rd: nat, end: nat, size: seq<uint8> -> nat)
    requires end <= rd <= |s| && forall i :: rd <= i < |s| ==> size(s[i..]) == 0
    ensures EndFrom(s, rd, end, size) == end
    decreases |s| - rd
  {
    if rd < |s| {
      assert size(s[rd..]) == 0;
      NoFrames(s, rd + 1, end, size);
    }
  }

  ghost predicate NoSync(s: seq<uint8>) {
    forall i :: 0 <= i < |s| ==> !IsSync(s[i])
  }

  /** The scan passes over bytes at which nothing starts. */
  lemma {:induction false} SkipFrom(s: seq<uint8>, n: nat, rd: nat, size: seq<uint8> -> nat)
    requires rd <= n <= |s| && forall i :: rd <= i < n ==> size(s[i..]) == 0
    ensures EndFrom(s, rd, 0, size) == EndFrom(s, n, 0, size) && FramesFrom(s, rd, size) == FramesFrom(s, n, size)
    decreases n - rd
  {
    if rd < n {
      assert size(s[rd..]) == 0;
      SkipFrom(s, n, rd + 1, size);
    }
  }

  /** The end of the last frame, counted from behind some bytes or from their start, is the same unless there is none. */
  lemma {:induction false} EndOrNone(s: seq<uint8>, rd: nat, end: nat, size: seq<uint8> -> nat)
    requires end <= rd <= |s|
    ensures EndFrom(s, rd, end, size) == if EndFrom(s, rd, 0, size) == 0 then end else EndFrom(s, rd, 0, size)
    ensures EndFrom(s, rd, 0, size) == 0 || EndFrom(s, rd, 0, size) > rd
    decreases |s| - rd
  {
    if rd < |s| {
      var n := size(s[rd..]);
      if 0 < n <= |s| - rd {
        assert EndFrom(s, rd + n, rd + n, size) >= rd + n;
      } else {
        EndOrNone(s, rd + 1, end, size);
      }
    }
  }

  lemma {:induction false} NothingStarts(z: seq<uint8>, s: seq<uint8>, i: nat)
    requires NoSync(z) && i < |z|
    ensures FrameSize((z + s)[i..]) == 0
  {
    assert (z + s)[i..][0] == z[i];
  }

  /** Noise in front changes neither what is recognised nor, unless nothing is, what is left. */
  lemma {:induction false} NoiseSkipped(z: seq<uint8>, s: seq<uint8>)
    requires NoSync(z)
    ensures FrameEnd(z + s) == if FrameEnd(s) == 0 then 0 else |z| + FrameEnd(s)
    ensures FramesFrom(z + s, 0, FrameSize) == FramesFrom(s, 0, FrameSize)
  {
    forall i | 0 <= i < |z| ensures FrameSize((z + s)[i..]) == 0 {
      NothingStarts(z, s, i);
    }
    SkipFrom(z + s, |z|, 0, FrameSize);
    EndOrNone(z + s, |z|, |z|, FrameSize);
    EndShift(z, s, 0, 0, FrameSize);
    FramesShift(z, s, 0, FrameSize);
  }

  /** A message and the noise before it. */
  datatype Segment = Segment(noise: seq<uint8>, msg: seq<uint8>)

  function Bytes(g: Segment): seq<uint8> {
    g.noise + g.msg
  }

  /** The reads drop bytes by eight, so what is left of the noise is what does not make up eight. */
  ghost predicate Reachable(g: Segment) {
    IsFrame(g.msg) && Quiet(g.msg) && NoSync(g.noise) && |g.noise| % MIN_MSG_SIZE + |g.msg| <= LONGEST_MSG
  }

  /** Nothing is recognised before the message is complete, however much of the noise is gone. */
  lemma {:induction false} QuietBehind(g: Segment, t: nat, n: nat)
    requires Quiet(g.msg) && NoSync(g.noise) && t <= |g.noise| && t <= n < |Bytes(g)|
    ensures FrameEnd(Bytes(g)[..n][t..]) == 0
  {
    var m := if n <= |g.noise| then 0 else n - |g.noise|;
    var z := g.noise[t..n - m];
    assert Bytes(g)[..n][t..] == z + g.msg[..m];
    NoiseSkipped(z, g.msg[..m]);
  }

  /** A whole message behind noise. */
  lemma {:induction false} ConsumedBehind(
    w: seq<uint8>, chunk: seq<uint8>, z: seq<uint8>, f: seq<uint8>, rest: seq<uint8>)
    requires IsFrame(f) && NoSync(z) && w + chunk == z + (f + rest)
    ensures Kept(w, chunk) == Kept([], rest) && Recognised(w, chunk) == [f] + Recognised([], rest)
  {
    UnframedBehindNoise(z, f, rest);
    NoiseSkipped(z, f + rest);
    FrameConsumed(f, rest, f, rest);
  }

  lemma {:induction false} UnframedBehindNoise(z: seq<uint8>, f: seq<uint8>, rest: seq<uint8>)
    requires IsFrame(f) && NoSync(z)
    ensures Unframed(z + (f + rest)) == Unframed(f + rest)
  {
    NoiseSkipped(z, f + rest);
    EndBehind(f, rest, FrameSize);
    DropFront(z, f + rest, FrameEnd(f + rest));
  }

  /* ---- All messages of a stream ---- */

  function Joined(msgs: seq<seq<uint8>>): seq<uint8> {
    if msgs == [] then [] else msgs[0] + Joined(msgs[1..])
  }

  lemma {:induction false} Associative(a: seq<uint8>, b: seq<uint8>, c: seq<uint8>)
    ensures (a + b) + c == a + (b + c)
  {
  }

  lemma {:induction false} JoinedAppend(a: seq<seq<uint8>>, b: seq<seq<uint8>>)
    ensures Joined(a + b) == Joined(a) + Joined(b)
  {
    if a == [] {
      assert a + b == b;
    } else {
      JoinedAppend(a[1..], b);
      assert (a + b)[1..] == a[1..] + b;
      Associative(a[0], Joined(a[1..]), Joined(b));
    }
  }

  lemma {:induction false} JoinedSplit(msgs: seq<seq<uint8>>, k: nat)
    requires k < |msgs|
    ensures Joined(msgs) == Joined(msgs[..k]) + (msgs[k] + Joined(msgs[k + 1..]))
    ensures Joined(msgs[..k + 1]) == Joined(msgs[..k]) + msgs[k]
  {
    JoinedAppend(msgs[..k], msgs[k..]);
    assert msgs == msgs[..k] + msgs[k..] && msgs[k..][1..] == msgs[k + 1..];
    JoinedAppend(msgs[..k], [msgs[k]]);
    assert msgs[..k + 1] == msgs[..k] + [msgs[k]];
    assert Joined([msgs[k]]) == msgs[k] + Joined([]) == msgs[k];
  }

  ghost predicate ProperPrefix(w: seq<uint8>, f: seq<uint8>) {
    |w| < |f| && w == f[..|w|]
  }

  /** After `stream`, the first `k` messages have arrived whole, and `w` is what has arrived of the next one. */
  ghost predicate InStep(msgs: seq<seq<uint8>>, stream: seq<uint8>, k: nat, w: seq<uint8>) {
    && k <= |msgs| && stream == Joined(msgs[..k]) + w
    && if k == |msgs| then w == [] else ProperPrefix(w, msgs[k])
  }

  /** What follows `k` whole messages and `w`, when `k` is not the last. */
  lemma {:induction false} NextBytes(
    msgs: seq<seq<uint8>>, stream: seq<uint8>, k: nat, w: seq<uint8>, chunk: seq<uint8>)
    requires InStep(msgs, stream, k, w) && k < |msgs| && stream + chunk <= Joined(msgs)
    ensures w + chunk <= msgs[k] + Joined(msgs[k + 1..])
    ensures stream + chunk == Joined(msgs[..k]) + (w + chunk)
  {
    JoinedSplit(msgs, k);
    Associative(Joined(msgs[..k]), w, chunk);
    Behind(Joined(msgs[..k]), w + chunk, msgs[k] + Joined(msgs[k + 1..]));
  }

  lemma {:induction false} Behind(p: seq<uint8>, s: seq<uint8>, t: seq<uint8>)
    requires p + s <= p + t
    ensures s <= t
  {
    assert s == (p + s)[|p|..] == (p + t)[|p|..|p| + |s|] == t[..|s|];
  }

  lemma {:induction false} CutBehind(s: seq<uint8>, f: seq<uint8>, t: seq<uint8>) returns (rest: seq<uint8>)
    requires s <= f + t && |s| >= |f|
    ensures s == f + rest && rest <= t
  {
    rest := s[|f|..];
    assert rest == t[..|rest|];
  }

  lemma {:induction false} NextInStep(msgs: seq<seq<uint8>>, stream: seq<uint8>, k: nat, rest: seq<uint8>)
    requires k < |msgs| && stream == Joined(msgs[..k]) + (msgs[k] + rest)
    requires var later := msgs[k + 1..]; if later == [] then rest == [] else ProperPrefix(rest, later[0])
    ensures InStep(msgs, stream, k + 1, rest)
  {
    JoinedSplit(msgs, k);
    Associative(Joined(msgs[..k]), msgs[k], rest);
  }

  /** The segments of a stream as bytes, and their messages. */
  function AllBytes(segs: seq<Segment>): (bs: seq<seq<uint8>>)
    ensures |bs| == |segs| && forall i :: 0 <= i < |segs| ==> bs[i] == Bytes(segs[i])
  {
    seq(|segs|, i requires 0 <= i < |segs| => Bytes(segs[i]))
  }

  function Messages(segs: seq<Segment>): (ms: seq<seq<uint8>>)
    ensures |ms| == |segs| && forall i :: 0 <= i < |segs| ==> ms[i] == segs[i].msg
  {
    seq(|segs|, i requires 0 <= i < |segs| => segs[i].msg)
  }

  /** After `stream`, the first `k` segments have arrived whole, and `part` is what has arrived of the next one. The buffer
      holds that part, less some of the noise in front, which was dropped by eight bytes at a time. */
  ghost predicate Holding(segs: seq<Segment>, stream: seq<uint8>, k: nat, part: seq<uint8>, w: seq<uint8>) {
    InStep(AllBytes(segs), stream, k, part) && IsHeld(part, w, if k < |segs| then |segs[k].noise| else 0)
  }

  /** One read keeps a part without a frame, less eight bytes when it is too long. */
  lemma {:induction false} PartKept(w: seq<uint8>, chunk: seq<uint8>)
    requires FrameEnd(w + chunk) == 0
    ensures Recognised(w, chunk) == []
    ensures Kept(w, chunk) == if |w + chunk| < LONGEST_MSG then w + chunk else (w + chunk)[MIN_MSG_SIZE..]
  {
    NoneRecognised(w + chunk, 0, 0, FrameSize);
  }

  /** The segment is still incomplete after a read. */
  lemma {:induction false} StillIncomplete(
    segs: seq<Segment>, stream: seq<uint8>, k: nat, part: seq<uint8>, w: seq<uint8>, chunk: seq<uint8>)
    requires Holding(segs, stream, k, part, w) && k < |segs| && stream + chunk <= Joined(AllBytes(segs))
    requires Reachable(segs[k]) && |part + chunk| < |Bytes(segs[k])|
    ensures Holding(segs, stream + chunk, k, part + chunk, Kept(w, chunk)) && Recognised(w, chunk) == []
  {
    var bs, g, t := AllBytes(segs), segs[k], |part| - |w|;
    NextBytes(bs, stream, k, part, chunk);
    PrefixOf(part + chunk, Bytes(g), Joined(bs[k + 1..]));
    PartGrows(part, w, chunk);
    QuietBehind(g, t, |part + chunk|);
    PartKept(w, chunk);
    StillEnough(|g.noise|, |g.msg|, t, |part + chunk|);
    PartHeld(part + chunk, w + chunk, Kept(w, chunk), |g.noise|);
  }

  /** The buffer holds all of `part` but some bytes of noise, dropped by eight at a time. */
  ghost predicate IsHeld(part: seq<uint8>, w: seq<uint8>, noise: nat) {
    && |w| <= |part| && w == part[|part| - |w|..] && (|part| - |w|) % MIN_MSG_SIZE == 0 && |part| - |w| <= noise
  }

  lemma {:induction false} PartGrows(part: seq<uint8>, w: seq<uint8>, chunk: seq<uint8>)
    requires |w| <= |part| && w == part[|part| - |w|..]
    ensures w + chunk == (part + chunk)[|part| - |w|..]
  {
  }

  lemma {:induction false} PartHeld(part: seq<uint8>, w: seq<uint8>, w': seq<uint8>, noise: nat)
    requires IsHeld(part, w, noise) && w' == if |w| < LONGEST_MSG then w else w[MIN_MSG_SIZE..]
    requires |w| >= LONGEST_MSG ==> |part| - |w| + MIN_MSG_SIZE <= noise
    ensures IsHeld(part, w', noise)
  {
    if |w| >= LONGEST_MSG {
      var t := |part| - |w|;
      assert part[t..][MIN_MSG_SIZE..] == part[t + MIN_MSG_SIZE..];
    }
  }

  lemma {:induction false} PrefixOf(s: seq<uint8>, f: seq<uint8>, rest: seq<uint8>)
    requires s <= f + rest && |s| <= |f|
    ensures s == f[..|s|]
  {
    assert s == (f + rest)[..|s|];
  }

  /** When the buffer gets too long, eight bytes of noise are left in front. */
  lemma {:induction false} StillEnough(noise: nat, msg: nat, t: nat, n: nat)
    requires noise % MIN_MSG_SIZE + msg <= LONGEST_MSG && t % MIN_MSG_SIZE == 0 && t <= noise && n < noise + msg
    ensures n - t >= LONGEST_MSG ==> t + MIN_MSG_SIZE <= noise
  {
  }

  /** The start of the next segment: a read never completes two, so at most 7 bytes of it. */
  lemma {:induction false} NextBegins(segs: seq<Segment>, k: nat, rest: seq<uint8>)
    requires k <= |segs| && (k < |segs| ==> Reachable(segs[k]))
    requires rest <= Joined(AllBytes(segs)[k..]) && |rest| < MIN_MSG_SIZE
    ensures Kept([], rest) == rest && Recognised([], rest) == []
    ensures if k == |segs| then rest == [] else ProperPrefix(rest, AllBytes(segs)[k])
  {
    var bs := AllBytes(segs);
    assert [] + rest == rest;
    if k < |segs| {
      assert bs[k..][0] == bs[k] && bs[k..][1..] == bs[k + 1..];
      PrefixOf(rest, bs[k], Joined(bs[k + 1..]));
      QuietBehind(segs[k], 0, |rest|);
      assert Bytes(segs[k])[..|rest|][0..] == rest;
    }
    PartKept([], rest);
  }

  /** A read completes segment `k`. */
  lemma {:induction false} Completed(
    segs: seq<Segment>, stream: seq<uint8>, k: nat, part: seq<uint8>, w: seq<uint8>, chunk: seq<uint8>)
    returns (rest: seq<uint8>)
    requires Holding(segs, stream, k, part, w) && k < |segs| && stream + chunk <= Joined(AllBytes(segs))
    requires Reachable(segs[k]) && (k + 1 < |segs| ==> Reachable(segs[k + 1]))
    requires |chunk| <= MIN_MSG_SIZE && |part + chunk| >= |Bytes(segs[k])|
    ensures Holding(segs, stream + chunk, k + 1, rest, Kept(w, chunk)) && Recognised(w, chunk) == [segs[k].msg]
  {
    var bs, g, t := AllBytes(segs), segs[k], |part| - |w|;
    NextBytes(bs, stream, k, part, chunk);
    rest := CutBehind(part + chunk, bs[k], Joined(bs[k + 1..]));
    BehindNoise(part, w, chunk, g, rest);
    ConsumedBehind(w, chunk, g.noise[t..], g.msg, rest);
    NextBegins(segs, k + 1, rest);
    assert bs[k + 1..] != [] ==> bs[k + 1..][0] == bs[k + 1];
    NextInStep(bs, stream + chunk, k, rest);
  }

  lemma {:induction false} BehindNoise(part: seq<uint8>, w: seq<uint8>, chunk: seq<uint8>, g: Segment, rest: seq<uint8>)
    requires |w| <= |part| && w == part[|part| - |w|..] && |part| - |w| <= |g.noise|
    requires part + chunk == Bytes(g) + rest
    ensures w + chunk == g.noise[|part| - |w|..] + (g.msg + rest)
  {
    var t := |part| - |w|;
    assert w + chunk == (part + chunk)[t..];
    assert (g.noise + g.msg + rest)[t..] == g.noise[t..] + (g.msg + rest);
  }

  lemma {:induction false} AllArrived(segs: seq<Segment>, stream: seq<uint8>, chunk: seq<uint8>)
    requires Holding(segs, stream, |segs|, [], []) && stream + chunk <= Joined(AllBytes(segs))
    ensures Holding(segs, stream + chunk, |segs|, [], Kept([], chunk)) && Recognised([], chunk) == []
  {
    var bs := AllBytes(segs);
    assert bs[..|bs|] == bs;
    assert chunk == [] && Kept([], []) == [];
  }

  /** What one more read recognises: nothing, or the message that it completes. */
  ghost predicate Completes(msgs: seq<seq<uint8>>, k: nat, k': nat, frames: seq<seq<uint8>>) {
    (k' == k && frames == []) || (k' == k + 1 && k < |msgs| && frames == [msgs[k]])
  }

  lemma {:induction false} LogGrows(msgs: seq<seq<uint8>>, k: nat, k': nat, log: seq<seq<uint8>>, frames: seq<seq<uint8>>)
    requires k <= |msgs| && log == msgs[..k] && Completes(msgs, k, k', frames)
    ensures k' <= |msgs| && log + frames == msgs[..k']
  {
  }

  lemma {:induction false} ReadInStep(
    segs: seq<Segment>, stream: seq<uint8>, k: nat, part: seq<uint8>, w: seq<uint8>, chunk: seq<uint8>)
    returns (k': nat, part': seq<uint8>)
    requires forall i :: 0 <= i < |segs| ==> Reachable(segs[i])
    requires Holding(segs, stream, k, part, w) && stream + chunk <= Joined(AllBytes(segs)) && |chunk| <= MIN_MSG_SIZE
    ensures Holding(segs, stream + chunk, k', part', Kept(w, chunk))
    ensures Completes(Messages(segs), k, k', Recognised(w, chunk))
  {
    if k == |segs| {
      AllArrived(segs, stream, chunk);
      k', part' := k, part;
    } else if |part + chunk| < |Bytes(segs[k])| {
      assert Reachable(segs[k]);
      StillIncomplete(segs, stream, k, part, w, chunk);
      k', part' := k, part + chunk;
    } else {
      assert Reachable(segs[k]) && (k + 1 < |segs| ==> Reachable(segs[k + 1]));
      part' := Completed(segs, stream, k, part, w, chunk);
      k' := k + 1;
    }
  }

  /** For every stream of UBX and NMEA messages that contain no others, with noise between them, and every split into reads
      of at most 8 bytes: what has been recognised is exactly the messages that arrived whole, in order, and the buffer
      holds what has arrived of the next one, behind at most some of its noise. */
  lemma {:induction false} WindowBehindNoise(segs: seq<Segment>, chunks: seq<seq<uint8>>)
    returns (k: nat, part: seq<uint8>)
    requires forall i :: 0 <= i < |segs| ==> Reachable(segs[i])
    requires forall i :: 0 <= i < |chunks| ==> |chunks[i]| <= MIN_MSG_SIZE
    requires Stream(chunks) <= Joined(AllBytes(segs))
    ensures Holding(segs, Stream(chunks), k, part, Window(chunks)) && Log(chunks) == Messages(segs)[..k]
  {
    k, part := 0, [];
    if chunks == [] {
      if segs != [] {
        assert Reachable(segs[0]);
      }
      assert AllBytes(segs)[..0] == [];
    } else {
      var before := chunks[..|chunks|-1];
      k, part := WindowBehindNoise(segs, before);
      var seen := k;
      k, part := ReadInStep(segs, Stream(before), k, part, Window(before), chunks[|chunks|-1]);
      LogGrows(Messages(segs), seen, k, Log(before), Recognised(Window(before), chunks[|chunks|-1]));
    }
  }

  /** Without noise the buffer holds exactly what has arrived of the next message. */
  lemma {:induction false} WindowInStep(msgs: seq<seq<uint8>>, chunks: seq<seq<uint8>>) returns (k: nat)
    requires forall i :: 0 <= i < |msgs| ==> Steady(msgs[i])
    requires forall i :: 0 <= i < |chunks| ==> |chunks[i]| <= MIN_MSG_SIZE
    requires Stream(chunks) <= Joined(msgs)
    ensures InStep(msgs, Stream(chunks), k, Window(chunks)) && Log(chunks) == msgs[..k]
  {
    var segs := Bare(msgs);
    BareSegments(msgs);
    var part;
    k, part := WindowBehindNoise(segs, chunks);
    assert Window(chunks) == part[0..] == part;
  }

  /** Messages without noise. */
  function Bare(msgs: seq<seq<uint8>>): seq<Segment> {
    seq(|msgs|, i requires 0 <= i < |msgs| => Segment([], msgs[i]))
  }

  lemma {:induction false} BareSegments(msgs: seq<seq<uint8>>)
    requires forall i :: 0 <= i < |msgs| ==> Steady(msgs[i])
    ensures Messages(Bare(msgs)) == msgs && AllBytes(Bare(msgs)) == msgs
    ensures forall i :: 0 <= i < |msgs| ==> Reachable(Bare(msgs)[i]) && Bare(msgs)[i].noise == []
  {
    forall i | 0 <= i < |msgs| ensures Bytes(Bare(msgs)[i]) == msgs[i] && Reachable(Bare(msgs)[i]) {
      assert Steady(msgs[i]);
    }
    assert AllBytes(Bare(msgs)) == msgs;
  }

  /* ---- Which messages qualify ---- */

  lemma {:induction false} UbxIsFrame(cls: uint8, id: uint8, payload: seq<uint8>)
    requires |payload| < 0x1_0000
    ensures IsFrame(EncodeUbx(cls, id, payload))
  {
    var f := EncodeUbx(cls, id, payload);
    forall rest ensures FrameSize(f + rest) == |f| {
      UbxRecognised(cls, id, payload, rest);
    }
    UbxRecognised(cls, id, payload, []);
  }

  lemma {:induction false} NmeaIsFrame(body: seq<uint8>)
    requires 2 <= |body| <= 249 && STAR !in body && LF !in body
    ensures IsFrame(EncodeNmea(body))
  {
    var f := EncodeNmea(body);
    NmeaRecognised(body);
    NoLineFeed(body);
    forall rest ensures FrameSize(f + rest) == |f| {
      FindIs(f + rest, 0, LF, |f| - 1);
      assert (f + rest)[..|f|] == f;
    }
  }

  /** The line feed that ends a sentence is its only one. */
  lemma {:induction false} NoLineFeed(body: seq<uint8>)
    requires LF !in body
    ensures var f := EncodeNmea(body); forall j :: 0 <= j < |f| - 1 ==> f[j] != LF
  {
    var f := EncodeNmea(body);
    forall j | 0 <= j < |f| - 1 ensures f[j] != LF {
      if 1 <= j <= |body| {
        assert f[j] == body[j - 1];
      }
    }
  }

  /** Without further sync characters, nothing is recognised before the message itself. */
  lemma {:induction false} PlainQuiet(f: seq<uint8>)
    requires forall i :: 1 <= i < |f| ==> !IsSync(f[i])
    requires forall n :: 1 <= n < |f| ==> FrameSize(f[..n]) == 0
    ensures Quiet(f)
  {
    forall n | 0 <= n < |f| ensures FrameEnd(f[..n]) == 0 {
      var s := f[..n];
      forall i | 0 <= i < n ensures FrameSize(s[i..]) == 0 {
        if i == 0 {
          assert s[0..] == s;
        } else {
          assert s[i..][0] == f[i];
        }
      }
      NoFrames(s, 0, 0, FrameSize);
    }
  }

  /** Every sentence of at most 121 characters without inner sync characters qualifies; the longest that the NMEA
      standard allows has 82. */
  lemma {:induction false} NmeaSteady(body: seq<uint8>)
    requires 2 <= |body| <= LONGEST_MSG - 6 && STAR !in body && LF !in body
    requires forall i :: 0 <= i < |body| ==> !IsSync(body[i])
    ensures Steady(EncodeNmea(body))
  {
    var f := EncodeNmea(body);
    NmeaIsFrame(body);
    NoLineFeed(body);
    forall i | 1 <= i < |f| ensures !IsSync(f[i]) {
      if i <= |body| {
        assert f[i] == body[i - 1];
      }
    }
    PlainQuiet(f);
  }

  /** So does every UBX message of at most 121 bytes without inner sync characters. */
  lemma {:induction false} UbxSteady(cls: uint8, id: uint8, payload: seq<uint8>)
    requires |payload| <= LONGEST_MSG - 8
    requires var f := EncodeUbx(cls, id, payload); forall i :: 1 <= i < |f| ==> !IsSync(f[i])
    ensures Steady(EncodeUbx(cls, id, payload))
  {
    var f := EncodeUbx(cls, id, payload);
    UbxIsFrame(cls, id, payload);
    UbxRecognised(cls, id, payload, []);
    forall n | 1 <= n < |f| ensures FrameSize(f[..n]) == 0 {
      UbxIncomplete(cls, id, payload, n);
    }
    PlainQuiet(f);
  }

  lemma {:induction false} UbxIncomplete(cls: uint8, id: uint8, payload: seq<uint8>, n: nat)
    requires |payload| < 0x1_0000 && 1 <= n < |payload| + 8
    ensures FrameSize(EncodeUbx(cls, id, payload)[..n]) == 0
  {
    var f := EncodeUbx(cls, id, payload);
    assert |f| == |payload| + 8 && f[4] == |payload| % 0x100 && f[5] == |payload| / 0x100;
  }
}
