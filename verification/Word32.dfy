/** Fixed-width unsigned integers as the C sources use them, and the relation between the free-running 32-bit
    microsecond counter and the unbounded time it stands for. */
module Word32 {

  const TWO32: int := 0x1_0000_0000
  const TWO31: int := 0x8000_0000

  type uint8 = x: int | 0 <= x < 0x100
  type uint16 = x: int | 0 <= x < 0x1_0000
  type uint32 = x: int | 0 <= x < 0x1_0000_0000

  function Pow2(n: nat): nat { if n == 0 then 1 else 2 * Pow2(n - 1) }

  /** The counter value shown at true time `t`. */
  function Wrap(t: int): uint32 {
    t % TWO32
  }

  /** `a + b` on uint32_t. */
  function Add(a: uint32, b: uint32): uint32 {
    if a + b < TWO32 then a + b else a + b - TWO32
  }

  /** `a - b` on uint32_t: the distance from `b` forward to `a` around the counter. */
  function Sub(a: uint32, b: uint32): uint32 {
    if b <= a then a - b else a - b + TWO32
  }

  /** The first true time at or after `t` at which the counter shows `c`. */
  function Due(t: int, c: uint32): int {
    t + Sub(c, Wrap(t))
  }

  /** `Due` inverts `Wrap`: it is the only time in the next counter period that shows `c`. */
  lemma {:induction false} DueUnique(t: int, c: uint32, u: int)
    ensures Wrap(Due(t, c)) == c
    ensures t <= u < t + TWO32 && Wrap(u) == c ==> u == Due(t, c)
  {
    var k := t / TWO32;
    assert t == k * TWO32 + Wrap(t);
    WrapUnique(k, c);
    WrapUnique(k + 1, c);
    if t <= u < t + TWO32 && Wrap(u) == c {
      assert u == (u / TWO32) * TWO32 + c;
    }
  }

  lemma {:induction false} WrapUnique(k: int, c: uint32)
    ensures Wrap(k * TWO32 + c) == c
  {
  }

  /** Subtracting counter values subtracts true times, for times less than one period apart. */
  lemma {:induction false} SubWrap(a: int, b: int)
    requires b <= a < b + TWO32
    ensures Sub(Wrap(a), Wrap(b)) == a - b
  {
    DueUnique(b, Wrap(a), a);
  }

  /** Seen from an earlier moment less than a period before it, a due time is the same due time. */
  lemma {:induction false} DueStable(t: int, u: int, c: uint32)
    requires t <= u && Due(u, c) < t + TWO32
    ensures Due(t, c) == Due(u, c)
  {
    DueUnique(u, c, u);
    DueUnique(t, c, Due(u, c));
  }
}
