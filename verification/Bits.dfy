/** Unsigned 32-bit numbers, and the bit operations of the codec's loops on natural numbers. */
module Bits {

  type u32 = x: int | 0 <= x < 0x1_0000_0000

  function Pow2(n: nat): (p: nat)
    ensures p > 0
  {
    if n == 0 then 1 else 2 * Pow2(n - 1)
  }

  /** `x | y`, bit by bit. */
  function Or(x: nat, y: nat): nat
    decreases x + y
  {
    if x == 0 && y == 0 then 0
    else (if x % 2 == 1 || y % 2 == 1 then 1 else 0) + 2 * Or(x / 2, y / 2)
  }

  /** `x << shift` in an unsigned type of the given width. */
  function ShiftLeft(x: nat, shift: nat, width: nat): nat {
    x * Pow2(shift) % Pow2(width)
  }

  lemma {:induction false} Pow2Add(a: nat, b: nat)
    ensures Pow2(a + b) == Pow2(a) * Pow2(b)
    decreases a
  {
    if a == 0 {
    } else {
      Pow2Add(a - 1, b);
      assert 2 * (Pow2(a - 1) * Pow2(b)) == 2 * Pow2(a - 1) * Pow2(b);
    }
  }

  lemma Widths()
    ensures Pow2(7) == 0x80 && Pow2(32) == 0x1_0000_0000 && Pow2(64) == 0x1_0000_0000_0000_0000
  {
    assert Pow2(2) == 4 && Pow2(4) == 16 by {
      Pow2Add(2, 2);
    }
    assert Pow2(7) == 0x80 by {
      assert Pow2(7) == 2 * (2 * (2 * Pow2(4)));
    }
    hide Pow2;
    Pow2Add(4, 4);
    Pow2Add(8, 8);
    Pow2Add(16, 16);
    Pow2Add(32, 32);
  }

  lemma {:induction false} OrNothing(y: nat)
    ensures Or(0, y) == y && Or(y, 0) == y
    decreases y
  {
    if y == 0 {
    } else {
      OrNothing(y / 2);
    }
  }

  /** Bits that lie above those of `x` are added by `|`. */
  lemma {:induction false} OrAdds(x: nat, y: nat, shift: nat)
    requires x < Pow2(shift)
    ensures Or(x, y * Pow2(shift)) == x + y * Pow2(shift)
    decreases shift
  {
    if shift == 0 {
      OrNothing(y);
    } else {
      var half := y * Pow2(shift - 1);
      assert y * Pow2(shift) == 2 * half;
      OrAdds(x / 2, y, shift - 1);
      if x == 0 && half == 0 {
      } else {
        OrOfEven(x, half);
      }
    }
  }

  lemma OrOfEven(x: nat, half: nat)
    requires x != 0 || half != 0
    ensures Or(x, 2 * half) == x % 2 + 2 * Or(x / 2, half)
  {
    assert 2 * half % 2 == 0 && 2 * half / 2 == half;
  }

  // ---- Remainders ----

  lemma ModUnique(x: nat, q: nat, r: nat, m: nat)
    requires 0 <= r < m && x == m * q + r
    ensures x % m == r
  {
    var d := q - x / m;
    assert x == m * (x / m) + x % m;
    assert m * d == x % m - r;
    assert d >= 1 ==> m * d >= m;
    assert d <= -1 ==> m * d <= 0 - m;
  }

  lemma ModShift(x: nat, q: nat, m: nat)
    requires m > 0
    ensures (x + m * q) % m == x % m
  {
    assert x == m * (x / m) + x % m;
    assert x + m * q == m * (x / m + q) + x % m;
    ModUnique(x + m * q, x / m + q, x % m, m);
  }

  /** Shifting keeps the bits that still fit. */
  lemma ShiftedBits(x: nat, shift: nat, width: nat)
    requires shift <= width
    ensures ShiftLeft(x, shift, width) == x % Pow2(width - shift) * Pow2(shift)
  {
    hide Pow2;
    var p, u := Pow2(shift), Pow2(width - shift);
    Pow2Add(shift, width - shift);
    var q, r := x / u, x % u;
    assert x == u * q + r;
    assert x * p == p * u * q + r * p;
    assert r * p < u * p;
    ModUnique(x * p, q, r * p, p * u);
  }

  lemma ShiftedOut(x: nat, shift: nat, width: nat)
    requires shift >= width
    ensures ShiftLeft(x, shift, width) == 0
  {
    hide Pow2;
    Pow2Add(width, shift - width);
    assert x * (Pow2(width) * Pow2(shift - width)) == Pow2(width) * (x * Pow2(shift - width)) + 0;
    ModUnique(x * Pow2(shift), x * Pow2(shift - width), 0, Pow2(width));
  }

  lemma CutSum(acc: nat, group: nat, p: nat, u: nat)
    requires acc < p && u > 0
    ensures p * u > 0 && acc % (p * u) == acc && (acc + group * p) % (p * u) == acc + group % u * p
  {
    var q, r := group / u, group % u;
    FitsBelow(acc, 0, p, u);
    FitsBelow(acc, r, p, u);
    ModUnique(acc, 0, acc, p * u);
    assert group * p == (u * q + r) * p == p * u * q + r * p;
    ModUnique(acc + group * p, q, acc + r * p, p * u);
  }

  lemma FitsBelow(acc: nat, r: nat, p: nat, u: nat)
    requires acc < p && r < u
    ensures acc <= acc + r * p < p * u
  {
    assert (r + 1) * p <= u * p;
  }

  lemma CutOut(acc: nat, group: nat, w: nat, v: nat)
    requires w > 0
    ensures (acc + group * (w * v)) % w == acc % w
  {
    assert group * (w * v) == w * (group * v);
    ModShift(acc, group * v, w);
  }

  /** What `|` with the next group makes of a variable of the given width that holds a number below
      the shift, cut to that width: the number with the group added, cut to that width. */
  lemma OrAddsTheNextGroup(acc: nat, group: nat, shift: nat, width: nat)
    requires acc < Pow2(shift)
    ensures Or(acc % Pow2(width), ShiftLeft(group, shift, width)) == (acc + group * Pow2(shift)) % Pow2(width)
  {
    hide Pow2, Or, ShiftLeft;
    if shift <= width {
      Pow2Add(shift, width - shift);
      CutSum(acc, group, Pow2(shift), Pow2(width - shift));
      ShiftedBits(group, shift, width);
      OrAdds(acc, group % Pow2(width - shift), shift);
    } else {
      Pow2Add(width, shift - width);
      CutOut(acc, group, Pow2(width), Pow2(shift - width));
      ShiftedOut(group, shift, width);
      OrNothing(acc % Pow2(width));
    }
  }
}
