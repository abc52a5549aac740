/** The GPS time reference (libloragw/src/loragw_gps.c), over exact reals: the three-strike synchroniser and the
    conversions between the concentrator counter and GPS or UTC time. */
module GpsTime {
  import opened Options
  import opened Word32

  const TS_CPS: real := 1_000_000.0
  const PLUS_10PPM: real := 1.00001
  const MINUS_10PPM: real := 0.99999
  const BILLION: int := 1_000_000_000

  datatype Timespec = Timespec(sec: int, nsec: int)

  datatype Tref = Tref(systime: int, countUs: uint32, utc: Timespec, gps: Timespec, xtalErr: real)

  /** One synchronisation attempt: the counter captured at the pulse, the times from the receiver, and the host clock. */
  datatype Pulse = Pulse(countUs: uint32, utc: Timespec, gps: Timespec, now: int)

  /** The reference, and whether the last attempt and the one before were aberrant. */
  datatype Sync = Sync(ref: Tref, aberMin1: bool, aberMin2: bool)

  predicate Within10Ppm(x: real) {
    MINUS_10PPM <= x <= PLUS_10PPM
  }

  /** Seconds from `t` to `time`. */
  function Elapsed(t: Timespec, time: Timespec): real {
    (time.sec - t.sec) as real + 0.000_000_001 * (time.nsec - t.nsec) as real
  }

  function Slope(p: Pulse, ref: Tref): real
    requires Elapsed(ref.utc, p.utc) != 0.0
  {
    Sub(p.countUs, ref.countUs) as real / TS_CPS / Elapsed(ref.utc, p.utc)
  }

  predicate Aberrant(p: Pulse, ref: Tref) {
    Elapsed(ref.utc, p.utc) == 0.0 || !Within10Ppm(Slope(p, ref))
  }

  /** What `lgw_gps_sync` leaves behind, and whether it reports success. */
  function Step(s: Sync, p: Pulse): (Sync, bool) {
    var bad := Aberrant(p, s.ref);
    var moved := s.ref.(systime := p.now, countUs := p.countUs, utc := p.utc, gps := p.gps);
    if !bad then (Sync(moved.(xtalErr := Slope(p, s.ref)), false, s.aberMin1), true)
    else if s.aberMin1 && s.aberMin2 then
      (Sync(if Within10Ppm(s.ref.xtalErr) then moved else moved.(xtalErr := 1.0), true, s.aberMin1), true)
    else (Sync(s.ref, true, s.aberMin1), false)
  }

  /** The reference is updated in place, the two flags are static variables. */
  class Synchroniser {
    var ref: Tref
    var aberMin1: bool
    var aberMin2: bool

    ghost function State(): Sync
      reads this
    {
      Sync(ref, aberMin1, aberMin2)
    }

    constructor (ref: Tref)
      ensures State() == Sync(ref, false, false)
    {
      this.ref, aberMin1, aberMin2 := ref, false, false;
    }

    method GpsSync(p: Pulse) returns (ok: bool)
      modifies this
      ensures (State(), ok) == Step(old(State()), p)
      ensures !ok ==> ref == old(ref)
      ensures ok ==> Within10Ppm(ref.xtalErr) && ref.countUs == p.countUs && ref.gps == p.gps && ref.utc == p.utc
    {
      var slope := 0.0;
      var aberN0 := true;
      if Elapsed(ref.utc, p.utc) != 0.0 {
        slope := Sub(p.countUs, ref.countUs) as real / TS_CPS / Elapsed(ref.utc, p.utc);
        aberN0 := slope > PLUS_10PPM || slope < MINUS_10PPM;
      }
      ok := true;
      if !aberN0 {
        ref := Tref(p.now, p.countUs, p.utc, p.gps, slope);
      } else if aberMin1 && aberMin2 {
        ref := ref.(systime := p.now, countUs := p.countUs, utc := p.utc, gps := p.gps);
        if ref.xtalErr > PLUS_10PPM || ref.xtalErr < MINUS_10PPM {
          ref := ref.(xtalErr := 1.0);
        }
      } else {
        ok := false;
      }
      aberMin2 := aberMin1;
      aberMin1 := aberN0;
    }
  }

  /* ---- Runs of the synchroniser ---- */

  function Run(s: Sync, pulses: seq<Pulse>): Sync
    decreases |pulses|
  {
    if pulses == [] then s else Run(Step(s, pulses[0]).0, pulses[1..])
  }

  /** Of any three consecutive attempts at least one succeeds, from whatever state. */
  lemma {:induction false} ThreeStrikes(s: Sync, p1: Pulse, p2: Pulse, p3: Pulse)
    ensures var (s1, ok1) := Step(s, p1);
            var (s2, ok2) := Step(s1, p2);
            var (s3, ok3) := Step(s2, p3);
            ok1 || ok2 || ok3
  {
  }

  /** The reference in force when attempt `k` is made. */
  function RefAt(s: Sync, pulses: seq<Pulse>, k: nat): Tref
    requires k <= |pulses|
  {
    Run(s, pulses[..k]).ref
  }

  /** Attempt `k` is aberrant, judged against the reference then in force. */
  predicate AberrantAt(s: Sync, pulses: seq<Pulse>, k: int) {
    0 <= k < |pulses| && Aberrant(pulses[k], RefAt(s, pulses, k))
  }

  lemma {:induction false} RunSnoc(s: Sync, pulses: seq<Pulse>, p: Pulse)
    ensures Run(s, pulses + [p]) == Step(Run(s, pulses), p).0
    decreases |pulses|
  {
    if pulses == [] {
      assert pulses + [p] == [p];
      assert Run(s, [p]) == Run(Step(s, p).0, [p][1..]);
    } else {
      assert (pulses + [p])[1..] == pulses[1..] + [p];
      RunSnoc(Step(s, pulses[0]).0, pulses[1..], p);
    }
  }

  lemma {:induction false} RunNext(s: Sync, pulses: seq<Pulse>, k: nat)
    requires k < |pulses|
    ensures Run(s, pulses[..k + 1]) == Step(Run(s, pulses[..k]), pulses[k]).0
  {
    assert pulses[..k + 1] == pulses[..k] + [pulses[k]];
    RunSnoc(s, pulses[..k], pulses[k]);
  }

  /** The flags say whether the last two attempts were aberrant. */
  lemma {:induction false} FlagsAre(ref: Tref, pulses: seq<Pulse>, k: nat)
    requires k <= |pulses|
    ensures var s := Sync(ref, false, false);
            && Run(s, pulses[..k]).aberMin1 == AberrantAt(s, pulses, k - 1)
            && Run(s, pulses[..k]).aberMin2 == AberrantAt(s, pulses, k - 2)
  {
    if k > 0 {
      FlagsAre(ref, pulses, k - 1);
      RunNext(Sync(ref, false, false), pulses, k - 1);
    }
  }

  /** Along every run of a new synchroniser: a plausible pulse always succeeds, and an aberrant one succeeds and moves the
      reference to it if and only if the two attempts right before it were aberrant too; otherwise the reference stays
      exactly as it was. */
  lemma {:induction false} ResetIff(ref: Tref, pulses: seq<Pulse>, k: nat)
    requires k < |pulses|
    ensures var s := Sync(ref, false, false);
            var ok := Step(Run(s, pulses[..k]), pulses[k]).1;
            && (ok <==> !AberrantAt(s, pulses, k) || (AberrantAt(s, pulses, k - 1) && AberrantAt(s, pulses, k - 2)))
            && (ok ==> && RefAt(s, pulses, k + 1).countUs == pulses[k].countUs
                       && RefAt(s, pulses, k + 1).utc == pulses[k].utc
                       && RefAt(s, pulses, k + 1).gps == pulses[k].gps
                       && RefAt(s, pulses, k + 1).systime == pulses[k].now)
            && (!ok ==> RefAt(s, pulses, k + 1) == RefAt(s, pulses, k))
  {
    FlagsAre(ref, pulses, k);
    RunNext(Sync(ref, false, false), pulses, k);
  }

  /** What plausible means, in whole numbers: `ns` nanoseconds have passed by the receiver, and the counter advanced by that
      many thousandths within 10 ppm. */
  lemma {:induction false} AberrantPlain(p: Pulse, ref: Tref)
    ensures var ns := (p.utc.sec - ref.utc.sec) * 1_000_000_000 + (p.utc.nsec - ref.utc.nsec);
            var ticks := Sub(p.countUs, ref.countUs);
            !Aberrant(p, ref) <==> ns > 0 && 99_999 * ns <= 100_000_000 * ticks <= 100_001 * ns
  {
    var ns := (p.utc.sec - ref.utc.sec) * 1_000_000_000 + (p.utc.nsec - ref.utc.nsec);
    var e := Elapsed(ref.utc, p.utc);
    assert e == 0.000_000_001 * ns as real;
    if ns != 0 {
      SlopePlain(Sub(p.countUs, ref.countUs), ns, e);
    }
  }

  lemma {:induction false} SlopePlain(ticks: nat, ns: int, e: real)
    requires e == 0.000_000_001 * ns as real && ns != 0
    ensures Within10Ppm(ticks as real / TS_CPS / e) <==> ns > 0 && 99_999 * ns <= 100_000_000 * ticks <= 100_001 * ns
  {
    var x := ticks as real / TS_CPS / e;
    Quotient(ticks as real / TS_CPS, e, x);
    assert x * e == 0.000_000_001 * (x * ns as real);
    if ns > 0 {
      WithinPlain(x, ticks, ns);
    } else {
      Negative(x, ns as real, ticks);
    }
  }

  lemma {:induction false} WithinPlain(x: real, ticks: nat, ns: nat)
    requires ns > 0 && x * ns as real == 1000.0 * ticks as real
    ensures Within10Ppm(x) <==> 99_999 * ns <= 100_000_000 * ticks <= 100_001 * ns
  {
    var n, y := ns as real, 1000.0 * ticks as real;
    Compare(x, n, y, 0.99999);
    Compare(x, n, y, 1.00001);
    assert 0.99999 * n <= y <==> 99_999 * ns <= 100_000_000 * ticks;
    assert y <= 1.00001 * n <==> 100_000_000 * ticks <= 100_001 * ns;
  }

  lemma {:induction false} Compare(x: real, n: real, y: real, c: real)
    requires n > 0.0 && x * n == y
    ensures c <= x <==> c * n <= y
    ensures x <= c <==> y <= c * n
  {
    assert x * n - c * n == (x - c) * n;
    if x > c {
      Positive(x - c, n);
    } else if x < c {
      Positive(c - x, n);
      assert c * n - x * n == (c - x) * n;
    }
  }

  lemma {:induction false} Negative(x: real, n: real, ticks: nat)
    requires n < 0.0 && x * n == 1000.0 * ticks as real
    ensures x <= 0.0
  {
  }

  /** What a success means: after a plausible pulse the new frequency error makes the counter advance since the old
      reference exactly the UTC time elapsed; a reset after three strikes keeps a frequency error that was in range. */
  lemma {:induction false} SuccessMeans(s: Sync, p: Pulse)
    ensures !Aberrant(p, s.ref) ==>
              && Step(s, p).1
              && Step(s, p).0.ref.xtalErr * TS_CPS * Elapsed(s.ref.utc, p.utc) == Sub(p.countUs, s.ref.countUs) as real
    ensures Aberrant(p, s.ref) && Step(s, p).1 && Within10Ppm(s.ref.xtalErr) ==>
              Step(s, p).0.ref.xtalErr == s.ref.xtalErr
    ensures Step(s, p).1 ==> Step(s, p).0.ref.countUs == p.countUs && Step(s, p).0.ref.gps == p.gps
  {
    if !Aberrant(p, s.ref) {
      SlopeBack(Sub(p.countUs, s.ref.countUs) as real, Elapsed(s.ref.utc, p.utc));
    }
  }

  lemma {:induction false} SlopeBack(c: real, e: real)
    requires e != 0.0
    ensures c / TS_CPS / e * TS_CPS * e == c
  {
    var a := c / TS_CPS;
    assert a / e * e == a;
    assert a / e * TS_CPS * e == (a / e * e) * TS_CPS;
  }

  /** Once an attempt has succeeded, the frequency error stays within 10 ppm whatever follows, so that no conversion
      rejects the reference for it. */
  lemma {:induction false} StaysWithin10Ppm(s: Sync, pulses: seq<Pulse>)
    requires Within10Ppm(s.ref.xtalErr)
    ensures Within10Ppm(Run(s, pulses).ref.xtalErr)
    decreases |pulses|
  {
    if pulses != [] {
      StaysWithin10Ppm(Step(s, pulses[0]).0, pulses[1..]);
    }
  }

  /** Any three attempts, from any state, leave a reference that conversions accept from then on, as long as the host
      clock does not read zero. */
  lemma {:induction false} UsableAfterThree(s: Sync, p1: Pulse, p2: Pulse, p3: Pulse, more: seq<Pulse>)
    requires p1.now != 0 && p2.now != 0 && p3.now != 0 && forall i :: 0 <= i < |more| ==> more[i].now != 0
    ensures ValidRef(Run(Step(Step(Step(s, p1).0, p2).0, p3).0, more).ref)
  {
    StaysValid(Step(Step(Step(s, p1).0, p2).0, p3).0, more);
  }

  lemma {:induction false} StaysValid(s: Sync, pulses: seq<Pulse>)
    requires ValidRef(s.ref) && forall i :: 0 <= i < |pulses| ==> pulses[i].now != 0
    ensures ValidRef(Run(s, pulses).ref)
    decreases |pulses|
  {
    if pulses != [] {
      StaysValid(Step(s, pulses[0]).0, pulses[1..]);
    }
  }

  /* ---- Conversions ---- */

  /** What every conversion demands of the reference. */
  predicate ValidRef(ref: Tref) {
    ref.systime != 0 && Within10Ppm(ref.xtalErr)
  }

  /** Counter to time, relative to a reference time `t`. */
  function CountToTime(ref: Tref, t: Timespec, count: uint32): Option<Timespec> {
    if !ValidRef(ref) then None
    else
      var delta := Sub(count, ref.countUs) as real / (TS_CPS * ref.xtalErr);
      var whole := delta.Floor;
      var nsec := t.nsec + ((delta - whole as real) * BILLION as real).Floor;
      if nsec < BILLION then Some(Timespec(t.sec + whole, nsec)) else Some(Timespec(t.sec + whole + 1, nsec - BILLION))
  }

  /** Counter ticks in so many seconds, cut to a whole number. */
  function Ticks(seconds: real, xtalErr: real): int {
    (seconds * TS_CPS * xtalErr).Floor
  }

  /** Time to counter, relative to a reference time `t`; the cast to uint32_t wraps. */
  function TimeToCount(ref: Tref, t: Timespec, time: Timespec): Option<uint32> {
    if !ValidRef(ref) then None
    else
      Some(Wrap(ref.countUs + Ticks(Elapsed(t, time), ref.xtalErr)))
  }

  function CntToGps(ref: Tref, count: uint32): Option<Timespec> { CountToTime(ref, ref.gps, count) }

  function GpsToCnt(ref: Tref, gps: Timespec): Option<uint32> { TimeToCount(ref, ref.gps, gps) }

  function CntToUtc(ref: Tref, count: uint32): Option<Timespec> { CountToTime(ref, ref.utc, count) }

  function UtcToCnt(ref: Tref, utc: Timespec): Option<uint32> { TimeToCount(ref, ref.utc, utc) }

  predicate Normal(t: Timespec) {
    0 <= t.nsec < BILLION
  }

  /** The nanosecond loss of the way there costs less than one tick on the way back. */
  lemma {:induction false} TickLoss(d: nat, x: real, delta: real, lost: real)
    requires Within10Ppm(x) && delta == d as real / (TS_CPS * x) && 0.0 <= lost < 0.000_000_001
    ensures (delta - lost) * TS_CPS * x == d as real - lost * TS_CPS * x
    ensures 0.0 <= lost * TS_CPS * x < 1.0
    ensures lost * TS_CPS * x == 0.0 <==> lost == 0.0
  {
    assert delta * (TS_CPS * x) == d as real;
    assert 0.0 <= lost * TS_CPS <= 0.001;
    assert lost * TS_CPS * x <= 0.001 * x;
  }

  lemma {:induction false} FloorNear(d: int, y: real)
    requires 0.0 <= y < 1.0
    ensures (d as real - y).Floor == if y == 0.0 then d else d - 1
  {
  }

  lemma {:induction false} TicksBack(d: nat, x: real, delta: real, lost: real)
    requires Within10Ppm(x) && delta == d as real / (TS_CPS * x) && 0.0 <= lost < 0.000_000_001
    ensures Ticks(delta - lost, x) == if lost == 0.0 then d else d - 1
  {
    TickLoss(d, x, delta, lost);
    FloorNear(d, lost * TS_CPS * x);
  }

  lemma {:induction false} CountBack(refCount: uint32, count: uint32)
    ensures Wrap(refCount + Sub(count, refCount)) == count
    ensures Wrap(refCount + Sub(count, refCount) - 1) == Sub(count, 1)
  {
  }

  /** Nanoseconds into the second that the counter value stands for, before they are cut to a whole number. */
  function Nanos(ref: Tref, count: uint32): real
    requires ValidRef(ref)
  {
    var delta := Sub(count, ref.countUs) as real / (TS_CPS * ref.xtalErr);
    (delta - delta.Floor as real) * BILLION as real
  }

  /** The time that comes out lies a whole number of nanoseconds after the reference, the cut being all that is lost. */
  lemma {:induction false} TimeIs(ref: Tref, t: Timespec, count: uint32)
    requires ValidRef(ref) && Normal(t)
    ensures CountToTime(ref, t, count).Some? && Normal(CountToTime(ref, t, count).value)
    ensures var time := CountToTime(ref, t, count).value;
            var delta := Sub(count, ref.countUs) as real / (TS_CPS * ref.xtalErr);
            Elapsed(t, time) == delta - 0.000_000_001 * (Nanos(ref, count) - Nanos(ref, count).Floor as real)
  {
  }

  /** The conversions are refused without a reference or with a frequency error beyond 10 ppm. */
  lemma {:induction false} ConvertsIff(ref: Tref, t: Timespec, count: uint32, time: Timespec)
    ensures CountToTime(ref, t, count).Some? <==> ref.systime != 0 && 0.99999 <= ref.xtalErr <= 1.00001
    ensures TimeToCount(ref, t, time).Some? <==> ref.systime != 0 && 0.99999 <= ref.xtalErr <= 1.00001
  {
  }

  /** A counter value becomes the last whole nanosecond at which the counter, running fast by the frequency error, has not
      passed it. */
  lemma {:induction false} NanosecondsPlain(ref: Tref, t: Timespec, count: uint32)
    requires ValidRef(ref) && Normal(t)
    ensures CountToTime(ref, t, count).Some?
    ensures var out := CountToTime(ref, t, count).value;
            var ns := (out.sec - t.sec) * 1_000_000_000 + (out.nsec - t.nsec);
            ns as real * ref.xtalErr <= 1000.0 * Sub(count, ref.countUs) as real < (ns as real + 1.0) * ref.xtalErr
  {
    TimeIs(ref, t, count);
    var out := CountToTime(ref, t, count).value;
    var d := Sub(count, ref.countUs) as real;
    var delta := d / (TS_CPS * ref.xtalErr);
    var lost := Nanos(ref, count) - Nanos(ref, count).Floor as real;
    var ns := WholeNanoseconds(t, out, delta, lost);
    Quotient(d, TS_CPS * ref.xtalErr, delta);
    Product(ns as real, lost, delta, ref.xtalErr, d);
  }

  lemma {:induction false} Quotient(d: real, y: real, q: real)
    requires y != 0.0 && q == d / y
    ensures q * y == d
  {
  }

  lemma {:induction false} WholeNanoseconds(t: Timespec, out: Timespec, delta: real, lost: real) returns (ns: int)
    requires Elapsed(t, out) == delta - 0.000_000_001 * lost
    ensures ns == (out.sec - t.sec) * 1_000_000_000 + (out.nsec - t.nsec)
    ensures ns as real == 1_000_000_000.0 * delta - lost
  {
    ns := (out.sec - t.sec) * 1_000_000_000 + (out.nsec - t.nsec);
    assert Elapsed(t, out) == 0.000_000_001 * ns as real;
  }

  lemma {:induction false} Product(ns: real, lost: real, delta: real, x: real, d: real)
    requires ns == 1_000_000_000.0 * delta - lost && 0.0 <= lost < 1.0 && x > 0.0 && delta * (TS_CPS * x) == d
    ensures ns * x <= 1000.0 * d < (ns + 1.0) * x
  {
    assert 1000.0 * d == 1_000_000_000.0 * delta * x;
    assert 1000.0 * d - ns * x == lost * x;
    assert (ns + 1.0) * x - 1000.0 * d == (1.0 - lost) * x;
    Positive(1.0 - lost, x);
    if lost > 0.0 {
      Positive(lost, x);
    }
  }

  lemma {:induction false} Positive(a: real, b: real)
    requires a > 0.0 && b > 0.0
    ensures a * b > 0.0
  {
  }

  /** A time becomes the last whole tick of a counter that runs fast by the frequency error. */
  lemma {:induction false} TicksPlain(ref: Tref, t: Timespec, time: Timespec) returns (ticks: int)
    requires ValidRef(ref)
    ensures TimeToCount(ref, t, time) == Some(Wrap(ref.countUs + ticks))
    ensures var ns := (time.sec - t.sec) * 1_000_000_000 + (time.nsec - t.nsec);
            1000.0 * ticks as real <= ns as real * ref.xtalErr < 1000.0 * (ticks as real + 1.0)
  {
    var ns := (time.sec - t.sec) * 1_000_000_000 + (time.nsec - t.nsec);
    var e := Elapsed(t, time);
    assert e == 0.000_000_001 * ns as real;
    ticks := Ticks(e, ref.xtalErr);
    assert e * TS_CPS * ref.xtalErr == 0.001 * (ns as real * ref.xtalErr);
  }

  /** `out` is the last whole nanosecond before the counter value, counted from `t`. */
  ghost predicate IsNanosecond(ref: Tref, t: Timespec, count: uint32, out: Option<Timespec>) {
    && out.Some? && 0 <= out.value.nsec < 1_000_000_000
    && var ns := (out.value.sec - t.sec) * 1_000_000_000 + (out.value.nsec - t.nsec);
       ns as real * ref.xtalErr <= 1000.0 * Sub(count, ref.countUs) as real < (ns as real + 1.0) * ref.xtalErr
  }

  /** GPS time counts from the GPS time of the reference, and UTC from its UTC time. */
  lemma {:induction false} BothPlain(ref: Tref, count: uint32)
    requires ValidRef(ref) && Normal(ref.gps) && Normal(ref.utc)
    ensures IsNanosecond(ref, ref.gps, count, CntToGps(ref, count))
    ensures IsNanosecond(ref, ref.utc, count, CntToUtc(ref, count))
  {
    NanosecondFrom(ref, ref.gps, count);
    NanosecondFrom(ref, ref.utc, count);
  }

  lemma {:induction false} NanosecondFrom(ref: Tref, t: Timespec, count: uint32)
    requires ValidRef(ref) && Normal(t)
    ensures IsNanosecond(ref, t, count, CountToTime(ref, t, count))
  {
    assert CountToTime(ref, t, count).Some? && Normal(CountToTime(ref, t, count).value) by {
      TimeIs(ref, t, count);
    }
    NanosecondsPlain(ref, t, count);
  }

  /** There and back: the time is normal, and the counter comes back exact or one tick early, exact just when no
      fraction of a nanosecond was cut. */
  lemma {:induction false} RoundTrip(ref: Tref, t: Timespec, count: uint32)
    requires ValidRef(ref) && Normal(t)
    ensures CountToTime(ref, t, count).Some? && Normal(CountToTime(ref, t, count).value)
    ensures TimeToCount(ref, t, CountToTime(ref, t, count).value) ==
            Some(if Nanos(ref, count) == Nanos(ref, count).Floor as real then count else Sub(count, 1))
  {
    var d := Sub(count, ref.countUs);
    var delta := d as real / (TS_CPS * ref.xtalErr);
    TimeIs(ref, t, count);
    var lost := 0.000_000_001 * (Nanos(ref, count) - Nanos(ref, count).Floor as real);
    TicksBack(d, ref.xtalErr, delta, lost);
    CountBack(ref.countUs, count);
  }

  /** Both pairs of conversions, on every valid reference. */
  lemma {:induction false} GpsAndUtcRoundTrip(ref: Tref, count: uint32)
    requires ValidRef(ref) && Normal(ref.gps) && Normal(ref.utc)
    ensures CntToGps(ref, count).Some? && Normal(CntToGps(ref, count).value)
    ensures CntToUtc(ref, count).Some? && Normal(CntToUtc(ref, count).value)
    ensures GpsToCnt(ref, CntToGps(ref, count).value) ==
            Some(if Nanos(ref, count) == Nanos(ref, count).Floor as real then count else Sub(count, 1))
    ensures UtcToCnt(ref, CntToUtc(ref, count).value) == GpsToCnt(ref, CntToGps(ref, count).value)
  {
    RoundTrip(ref, ref.gps, count);
    RoundTrip(ref, ref.utc, count);
  }
}
