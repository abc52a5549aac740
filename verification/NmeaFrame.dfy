/** NMEA sentences and their checksum (libloragw/src/loragw_gps.c). */
module NmeaFrame {
  import opened Word32

  const DOLLAR: uint8 := 0x24
  const STAR: uint8 := 0x2A
  const LF: uint8 := 0x0A
  const PARSER_BUF_SIZE: nat := 256

  /* ---- Exclusive or ---- */

  /** Exclusive or, bit by bit from the lowest. */
  function XorBits(a: nat, b: nat): nat
    decreases a + b
  {
    if a == 0 && b == 0 then 0 else 2 * XorBits(a / 2, b / 2) + (a + b) % 2
  }

  function BitOf(a: nat, i: nat): nat {
    if i == 0 then a % 2 else BitOf(a / 2, i - 1)
  }

  /** Each bit of the result is set where exactly one operand has it. */
  lemma {:induction false} XorIsBitwise(a: nat, b: nat, i: nat)
    ensures BitOf(XorBits(a, b), i) == if BitOf(a, i) == BitOf(b, i) then 0 else 1
    decreases i
  {
    XorStep(a, b);
    if i == 0 {
      ParityIs(a, b);
    } else {
      XorIsBitwise(a / 2, b / 2, i - 1);
      assert BitOf(XorBits(a, b), i) == BitOf(XorBits(a / 2, b / 2), i - 1);
    }
  }

  lemma {:induction false} ParityIs(a: nat, b: nat)
    ensures (a + b) % 2 == if a % 2 == b % 2 then 0 else 1
  {
  }

  lemma {:induction false} XorBounded(a: nat, b: nat, n: nat)
    requires a < Pow2(n) && b < Pow2(n)
    ensures XorBits(a, b) < Pow2(n)
  {
    if n > 0 && !(a == 0 && b == 0) {
      XorBounded(a / 2, b / 2, n - 1);
    }
  }

  function Xor(a: uint8, b: uint8): uint8 {
    assert Pow2(4) == 16;
    assert Pow2(8) == 256;
    XorBounded(a, b, 8);
    XorBits(a, b)
  }

  lemma {:induction false} XorSymmetric(a: nat, b: nat)
    ensures XorBits(a, b) == XorBits(b, a)
    decreases a + b
  {
    if !(a == 0 && b == 0) {
      XorSymmetric(a / 2, b / 2);
    }
  }

  /** Either operand is determined by the other one and the result. */
  lemma {:induction false} XorCancels(a: nat, b: nat, c: nat)
    requires XorBits(a, b) == XorBits(a, c)
    ensures b == c
    decreases a + b + c
  {
    if !(a == 0 && b == 0 && c == 0) {
      XorStep(a, b);
      XorStep(a, c);
      XorCancels(a / 2, b / 2, c / 2);
      SameHalves(a, b, c);
    }
  }

  lemma {:induction false} SameHalves(a: nat, b: nat, c: nat)
    requires b / 2 == c / 2 && (a + b) % 2 == (a + c) % 2
    ensures b == c
  {
  }

  lemma {:induction false} XorStep(a: nat, b: nat)
    ensures XorBits(a, b) / 2 == XorBits(a / 2, b / 2) && XorBits(a, b) % 2 == (a + b) % 2
  {
  }

  function Checksum(s: seq<uint8>): uint8 {
    if s == [] then 0 else Xor(Checksum(s[..|s|-1]), s[|s|-1])
  }

  /** How many of the bytes have bit `i`. */
  function BitCount(s: seq<uint8>, i: nat): nat {
    if s == [] then 0 else BitCount(s[1..], i) + BitOf(s[0], i)
  }

  lemma {:induction false} BitCountSnoc(s: seq<uint8>, b: uint8, i: nat)
    ensures BitCount(s + [b], i) == BitCount(s, i) + BitOf(b, i)
  {
    if s == [] {
      assert s + [b] == [b];
      assert BitCount([b], i) == BitCount([], i) + BitOf(b, i);
    } else {
      assert (s + [b])[1..] == s[1..] + [b];
      BitCountSnoc(s[1..], b, i);
    }
  }

  lemma {:induction false} BitIsBit(a: nat, i: nat)
    ensures BitOf(a, i) < 2
  {
    if i > 0 {
      BitIsBit(a / 2, i - 1);
    }
  }

  lemma {:induction false} NoBits(i: nat)
    ensures BitOf(0, i) == 0
  {
    if i > 0 {
      NoBits(i - 1);
    }
  }

  /** Each bit of the checksum is the parity of that bit over all bytes. */
  lemma {:induction false} ChecksumIsParity(s: seq<uint8>, i: nat)
    ensures BitOf(Checksum(s), i) == BitCount(s, i) % 2
  {
    if s == [] {
      NoBits(i);
    } else {
      var n := |s| - 1;
      ChecksumIsParity(s[..n], i);
      BitCountSnoc(s[..n], s[n], i);
      assert s[..n] + [s[n]] == s;
      XorIsBitwise(Checksum(s[..n]), s[n], i);
      BitIsBit(s[n], i);
    }
  }

  lemma {:induction false} ChecksumNext(s: seq<uint8>, from: nat, i: nat)
    requires from <= i < |s|
    ensures Checksum(s[from..i + 1]) == Xor(Checksum(s[from..i]), s[i])
  {
    assert s[from..i + 1][..i - from] == s[from..i];
  }

  /** One altered byte always alters the checksum. */
  lemma {:induction false} ChecksumDiffers(s: seq<uint8>, k: nat, b: uint8)
    requires k < |s| && b != s[k]
    ensures Checksum(s[k := b]) != Checksum(s)
    decreases |s|
  {
    var n, r := |s| - 1, s[k := b];
    if k == n {
      assert r[..n] == s[..n];
      if Checksum(r) == Checksum(s) {
        XorCancels(Checksum(s[..n]), b, s[n]);
      }
    } else {
      ChecksumDiffers(s[..n], k, b);
      assert r[..n] == s[..n][k := b];
      XorSymmetric(Checksum(r[..n]), s[n]);
      XorSymmetric(Checksum(s[..n]), s[n]);
      if Checksum(r) == Checksum(s) {
        XorCancels(s[n], Checksum(r[..n]), Checksum(s[..n]));
      }
    }
  }

  /* ---- Sentences ---- */

  /** The first `b` at or after index `i`, or the length. */
  function Find(s: seq<uint8>, i: nat, b: uint8): (k: nat)
    requires i <= |s|
    ensures i <= k <= |s| && (k < |s| ==> s[k] == b) && forall j :: i <= j < k ==> s[j] != b
    decreases |s| - i
  {
    if i == |s| || s[i] == b then i else Find(s, i + 1, b)
  }

  function HexChar(a: nat): (r: uint8)
    requires a < 16
    ensures r == "0123456789ABCDEF"[a] as int
  {
    if a < 10 then 0x30 + a else 0x41 + (a - 10)
  }

  function HexDigits(c: uint8): seq<uint8> {
    [HexChar(c / 16), HexChar(c % 16)]
  }

  /** Two checksums written alike are the same. */
  lemma {:induction false} HexUnique(c: uint8, d: uint8)
    requires HexDigits(c) == HexDigits(d)
    ensures c == d
  {
    assert HexDigits(c)[0] == HexDigits(d)[0] && HexDigits(c)[1] == HexDigits(d)[1];
  }

  /** Where the checked part starts: a leading dollar is skipped. */
  function Start(s: seq<uint8>): nat
    requires |s| > 1
  {
    if s[0] == DOLLAR then 1 else 0
  }

  /** The checksum behind the star matches; at least one more character must follow it. */
  predicate ChecksumOk(s: seq<uint8>) {
    && |s| > 1
    && var k := Find(s, Start(s), STAR);
       k + 1 < |s| - 2 && s[k + 1..k + 3] == HexDigits(Checksum(s[Start(s)..k]))
  }

  /** The sentences that `lgw_parse_nmea` neither calls unknown nor invalid. */
  predicate NmeaAccepted(s: seq<uint8>) {
    8 <= |s| <= PARSER_BUF_SIZE - 1 && ChecksumOk(s)
  }

  function EncodeNmea(body: seq<uint8>): seq<uint8> {
    [0x24] + body + [0x2A] + HexDigits(Checksum(body)) + [0x0D, 0x0A]
  }

  lemma {:induction false} FindIs(s: seq<uint8>, i: nat, b: uint8, k: nat)
    requires i <= k < |s| && s[k] == b && forall j :: i <= j < k ==> s[j] != b
    ensures Find(s, i, b) == k
  {
  }

  /** A sentence with its own checksum is accepted. */
  lemma {:induction false} NmeaRecognised(body: seq<uint8>)
    requires 2 <= |body| <= 249 && STAR !in body
    ensures NmeaAccepted(EncodeNmea(body))
  {
    var s, k := EncodeNmea(body), |body| + 1;
    assert forall j :: 1 <= j < k ==> s[j] == body[j - 1];
    FindIs(s, 1, STAR, k);
    assert s[1..k] == body;
    assert s[k + 1..k + 3] == HexDigits(Checksum(body));
  }

  /** Which sentences are accepted: of 8 to 255 characters, with a first star behind the leading dollar, if there is one,
      and behind it two hexadecimal digits, the exclusive or of what lies in between, and at least one more character. */
  lemma {:induction false} NmeaAcceptedIff(s: seq<uint8>)
    ensures NmeaAccepted(s) <==> 8 <= |s| <= 255 && exists k: nat :: ChecksumAt(s, k)
  {
    if 8 <= |s| {
      var from := Start(s);
      var k := Find(s, from, STAR);
      if k + 3 < |s| && s[k + 1..k + 3] == HexDigits(Checksum(s[from..k])) {
        assert ChecksumAt(s, k);
      }
      forall k': nat | ChecksumAt(s, k') ensures k' == k {
        FindIs(s, from, STAR, k');
      }
    }
  }

  /** The first star is at index `k`, and the checksum behind it matches. */
  predicate ChecksumAt(s: seq<uint8>, k: nat) {
    var from := if |s| > 0 && s[0] == 0x24 then 1 else 0;
    && from <= k && k + 3 < |s| && s[k] == 0x2A && (forall j :: from <= j < k ==> s[j] != 0x2A)
    && s[k + 1..k + 3] == HexDigits(Checksum(s[from..k]))
  }

  /** A byte between the dollar and the star that is altered to anything but a star is always noticed. */
  lemma {:induction false} NmeaAltered(s: seq<uint8>, k: nat, b: uint8)
    requires NmeaAccepted(s) && s[0] == DOLLAR && 1 <= k < Find(s, 1, STAR) && b != s[k] && b != STAR
    ensures !NmeaAccepted(s[k := b])
  {
    var r, n := s[k := b], Find(s, 1, STAR);
    FindIs(r, 1, STAR, n);
    assert r[1..n] == s[1..n][k - 1 := b] && r[n + 1..n + 3] == s[n + 1..n + 3];
    ChecksumDiffers(s[1..n], k - 1, b);
    if HexDigits(Checksum(r[1..n])) == HexDigits(Checksum(s[1..n])) {
      HexUnique(Checksum(r[1..n]), Checksum(s[1..n]));
    }
  }

  /** The exact condition: the altered sentence is still accepted if and only if the new byte is a star and the two
      characters behind it happen to be the checksum of what precedes it. */
  lemma {:induction false} NmeaAlteredIff(s: seq<uint8>, k: nat, b: uint8)
    requires NmeaAccepted(s) && s[0] == DOLLAR && 1 <= k < Find(s, 1, STAR) && b != s[k]
    ensures NmeaAccepted(s[k := b]) <==> b == STAR && s[k + 1..k + 3] == HexDigits(Checksum(s[1..k]))
  {
    var r := s[k := b];
    if b == STAR {
      FindIs(r, 1, STAR, k);
      assert r[1..k] == s[1..k] && r[k + 1..k + 3] == s[k + 1..k + 3];
    } else {
      NmeaAltered(s, k, b);
    }
  }

  /** An altered checksum digit is always noticed. */
  lemma {:induction false} NmeaDigitAltered(s: seq<uint8>, k: nat, b: uint8)
    requires NmeaAccepted(s) && s[0] == DOLLAR
    requires (k == Find(s, 1, STAR) + 1 || k == Find(s, 1, STAR) + 2) && b != s[k]
    ensures !NmeaAccepted(s[k := b])
  {
    var r, n := s[k := b], Find(s, 1, STAR);
    FindIs(r, 1, STAR, n);
    assert r[1..n] == s[1..n];
    assert r[n + 1..n + 3][k - n - 1] == b && s[n + 1..n + 3][k - n - 1] == s[k];
  }

  /* ---- The loops of the source ---- */

  /** Position of the checksum, or -1, and the two characters expected there. */
  method NmeaChecksum(s: seq<uint8>) returns (pos: int, digits: seq<uint8>)
    ensures pos == -1 <==> |s| <= 1 || Find(s, Start(s), STAR) == |s|
    ensures pos != -1 ==>
              && pos == Find(s, Start(s), STAR) + 1
              && digits == HexDigits(Checksum(s[Start(s)..pos - 1]))
  {
    if |s| <= 1 {
      return -1, [];
    }
    var i, c: uint8 := 0, 0;
    if s[0] == DOLLAR {
      i := 1;
    }
    while s[i] != STAR
      invariant Start(s) <= i < |s|
      invariant Find(s, Start(s), STAR) == Find(s, i, STAR)
      invariant c == Checksum(s[Start(s)..i])
      decreases |s| - i
    {
      ChecksumNext(s, Start(s), i);
      c := Xor(c, s[i]);
      i := i + 1;
      if i >= |s| {
        return -1, [];
      }
    }
    return i + 1, HexDigits(c);
  }

  method ValidateNmea(s: seq<uint8>) returns (ok: bool)
    ensures ok == ChecksumOk(s)
  {
    var pos, digits := NmeaChecksum(s);
    if pos < 0 || pos >= |s| - 2 {
      return false;
    }
    ok := s[pos] == digits[0] && s[pos + 1] == digits[1];
    assert s[pos..pos + 2] == [s[pos], s[pos + 1]] && digits == [digits[0], digits[1]];
  }

  method ParseNmea(s: seq<uint8>) returns (ok: bool)
    ensures ok == NmeaAccepted(s)
  {
    if |s| > PARSER_BUF_SIZE - 1 || |s| < 8 {
      return false;
    }
    ok := ValidateNmea(s);
  }
}
