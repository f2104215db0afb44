/** Machine-integer bounds and the few facts about numbers and sets that several modules use. */
module Basics {
  const MAX_U64: nat := 0xFFFF_FFFF_FFFF_FFFF
  const MAX_U128: nat := 0xFFFF_FFFF_FFFF_FFFF_FFFF_FFFF_FFFF_FFFF
  const MAX_U256: nat := 0xFFFF_FFFF_FFFF_FFFF_FFFF_FFFF_FFFF_FFFF_FFFF_FFFF_FFFF_FFFF_FFFF_FFFF_FFFF_FFFF

  function Saturated(n: nat, max: nat): nat {
    if n > max then max else n
  }

  function SaturatingSub(a: int, b: int): int {
    if a < b then 0 else a - b
  }

  lemma {:induction false} ProductMonotone(a: int, b: int, c: int)
    requires a >= 0 && b <= c
    ensures a * b <= a * c
  {
    assert a * c - a * b == a * (c - b);
  }

  lemma {:induction false} LargeMultiple(p: int, k: int)
    requires p > 0 && k != 0
    ensures p * k >= p || p * k <= -p
  {
    if k > 0 {
      assert p * (k - 1) >= 0;
    } else {
      assert p * (-k - 1) >= 0;
    }
  }

  lemma {:induction false} UniqueRemainder(p: int, a: int, q: int, r: int)
    requires p > 0 && a == p * q + r && 0 <= r < p
    ensures a % p == r
  {
    var q', r' := a / p, a % p;
    assert a == p * q' + r';
    assert p * (q - q') == r' - r;
    if q != q' { LargeMultiple(p, q - q'); }
  }

  lemma {:induction false} SubsetSize<T>(a: set<T>, b: set<T>)
    requires a <= b
    ensures |a| <= |b|
    decreases |a|
  {
    if a != {} {
      var x :| x in a;
      SubsetSize(a - {x}, b - {x});
    }
  }
}
