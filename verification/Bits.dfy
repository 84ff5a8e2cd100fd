/** Fixed-width bit-vector values, held as naturals below a power of two, in the way
    the constant expressions of the symbolic executor hold an arbitrary-precision word. */
module Bits {

  function Pow2(n: nat): (p: nat)
    ensures p > 0
  {
    if n == 0 then 1 else 2 * Pow2(n - 1)
  }

  /** The value of the integer `x` in a word of `w` bits. */
  function Wrap(x: int, w: nat): (v: nat)
    ensures v < Pow2(w)
  {
    x % Pow2(w)
  }

  /** The two's complement reading of a word. */
  function Signed(v: nat, w: nat): int
    requires w > 0
  {
    if v >= Pow2(w - 1) then v - Pow2(w) else v
  }

  function BoolBit(b: bool): (v: nat)
    ensures v <= 1
  {
    if b then 1 else 0
  }

  function BitAnd(x: nat, y: nat): nat
  {
    if x == 0 then 0 else (x % 2) * (y % 2) + 2 * BitAnd(x / 2, y / 2)
  }

  function BitOr(x: nat, y: nat): nat
  {
    if x == 0 then y else (if x % 2 == 1 then 1 else y % 2) + 2 * BitOr(x / 2, y / 2)
  }

  function BitXor(x: nat, y: nat): nat
  {
    if x == 0 then y else (x % 2 + y % 2) % 2 + 2 * BitXor(x / 2, y / 2)
  }

  /** C-style division: the quotient is truncated toward zero. */
  function TruncDiv(x: int, y: int): int
    requires y != 0
  {
    if (x >= 0) == (y >= 0) then Abs(x) / Abs(y) else -(Abs(x) / Abs(y))
  }

  function Abs(x: int): nat { if x < 0 then -x else x }

  // ----- powers of two -----

  lemma {:induction false} Pow2Add(m: nat, n: nat)
    ensures Pow2(m + n) == Pow2(m) * Pow2(n)
  {
    if m > 0 {
      Pow2Add(m - 1, n);
      MulAssoc(2, Pow2(m - 1), Pow2(n));
    }
  }

  lemma {:induction false} Pow2Mono(m: nat, n: nat)
    requires m <= n
    ensures Pow2(m) <= Pow2(n)
  {
    if m < n {
      Pow2Mono(m, n - 1);
    }
  }

  // ----- remainders -----

  lemma {:induction false} MulAtLeast(d: nat, m: nat)
    requires d >= 1
    ensures d * m >= m
  {
    if d > 1 {
      MulAtLeast(d - 1, m);
      Distribute(d - 1, 1, m);
    }
  }

  lemma Distribute(x: int, y: int, m: int)
    ensures (x + y) * m == x * m + y * m
    ensures (x - y) * m == x * m - y * m
  {
  }

  lemma ModUnique(x: int, q: int, r: int, m: nat)
    requires 0 <= r < m && x == q * m + r
    ensures x % m == r && x / m == q
  {
    var q', r' := x / m, x % m;
    DivMod(x, m);
    Distribute(q, q', m);
    Distribute(q', q, m);
    if q > q' {
      MulAtLeast(q - q', m);
    } else if q < q' {
      MulAtLeast(q' - q, m);
    }
  }

  lemma ModShift(x: int, k: int, m: nat)
    requires m > 0
    ensures (x + k * m) % m == x % m
  {
    assert x == (x / m) * m + x % m;
    assert x + k * m == (x / m + k) * m + x % m by {
      assert (x / m + k) * m == (x / m) * m + k * m;
    }
    ModUnique(x + k * m, x / m + k, x % m, m);
  }

  lemma ModAdd(x: int, y: int, m: nat)
    requires m > 0
    ensures (x % m + y) % m == (x + y) % m
  {
    assert x == (x / m) * m + x % m;
    ModShift(x % m + y, x / m, m);
  }

  lemma ModSub(x: int, y: int, m: nat)
    requires m > 0
    ensures (x - y % m) % m == (x - y) % m
  {
    assert y == (y / m) * m + y % m;
    ModShift(x - y, y / m, m);
  }

  lemma ModSmall(x: int, m: nat)
    requires 0 <= x < m
    ensures x % m == x
  {
    ModUnique(x, 0, x, m);
  }

  lemma DivMod(x: int, m: nat)
    requires m > 0
    ensures x == (x / m) * m + x % m && 0 <= x % m < m
    ensures x >= 0 ==> x / m >= 0
  {
    var q := x / m;
    if q < 0 {
      MulPos(q, m, 0);
    }
  }

  lemma MulPos(x: int, m: nat, y: int)
    requires m > 0
    ensures x < y ==> x * m + m <= y * m
    ensures x <= y ==> x * m <= y * m
  {
    if x < y {
      Distribute(y, x, m);
      MulAtLeast(y - x, m);
    }
  }

  /** `(x / a) / b` is one division by the product. */
  lemma DivDiv(x: nat, a: nat, b: nat)
    requires a > 0 && b > 0
    ensures a * b > 0
    ensures (x / a) / b == x / (a * b)
    ensures ((x / a) % b) * a + x % a == x % (a * b)
  {
    assert a * b > 0 by { MulPos(0, a, b); }
    var q, r := x / a, x % a;
    var q', r' := q / b, q % b;
    DivMod(x, a);
    DivMod(q, b);
    calc {
      x;
      (q' * b + r') * a + r;
      q' * b * a + r' * a + r;
      q' * (a * b) + (r' * a + r);
    }
    assert 0 <= r' * a + r < a * b by {
      MulPos(r', a, b);
      MulPos(0, a, r' + 1);
    }
    ModUnique(x, q', r' * a + r, a * b);
  }

  // ----- bitwise operators -----

  lemma {:induction false} BitAndComm(x: nat, y: nat)
    ensures BitAnd(x, y) == BitAnd(y, x)
  {
    if x == 0 && y == 0 {
    } else {
      BitAndComm(x / 2, y / 2);
      BitAndZero(x);
      BitAndZero(y);
    }
  }

  lemma {:induction false} BitAndZero(x: nat)
    ensures BitAnd(x, 0) == 0
  {
    if x != 0 {
      BitAndZero(x / 2);
    }
  }

  lemma {:induction false} BitOrComm(x: nat, y: nat)
    ensures BitOr(x, y) == BitOr(y, x)
  {
    if x == 0 && y == 0 {
    } else {
      BitOrComm(x / 2, y / 2);
      BitOrZero(x);
      BitOrZero(y);
    }
  }

  lemma {:induction false} BitOrZero(x: nat)
    ensures BitOr(x, 0) == x
  {
    if x != 0 {
      BitOrZero(x / 2);
    }
  }

  lemma {:induction false} BitXorComm(x: nat, y: nat)
    ensures BitXor(x, y) == BitXor(y, x)
  {
    if x == 0 && y == 0 {
    } else {
      BitXorComm(x / 2, y / 2);
      BitXorZero(x);
      BitXorZero(y);
    }
  }

  lemma {:induction false} BitXorZero(x: nat)
    ensures BitXor(x, 0) == x
  {
    if x != 0 {
      BitXorZero(x / 2);
    }
  }

  lemma HalfOnes(w: nat)
    requires w > 0
    ensures (Pow2(w) - 1) / 2 == Pow2(w - 1) - 1 && (Pow2(w) - 1) % 2 == 1
  {
  }

  lemma {:induction false} BitAndOnes(x: nat, w: nat)
    requires x < Pow2(w)
    ensures BitAnd(x, Pow2(w) - 1) == x
  {
    if x != 0 {
      assert w > 0;
      HalfOnes(w);
      BitAndOnes(x / 2, w - 1);
    }
  }

  lemma {:induction false} BitOrOnes(x: nat, w: nat)
    requires x < Pow2(w)
    ensures BitOr(x, Pow2(w) - 1) == Pow2(w) - 1
  {
    if x != 0 {
      HalfOnes(w);
      BitOrOnes(x / 2, w - 1);
    }
  }

  lemma {:induction false} BitBounds(x: nat, y: nat, w: nat)
    requires x < Pow2(w) && y < Pow2(w)
    ensures BitAnd(x, y) < Pow2(w) && BitOr(x, y) < Pow2(w) && BitXor(x, y) < Pow2(w)
  {
    if x != 0 {
      BitBounds(x / 2, y / 2, w - 1);
    }
  }

  /** At width one the operators are the Boolean connectives. */
  lemma BitBool(x: nat, y: nat)
    requires x < 2 && y < 2
    ensures BitAnd(x, y) == BoolBit(x == 1 && y == 1)
    ensures BitOr(x, y) == BoolBit(x == 1 || y == 1)
    ensures BitXor(x, y) == BoolBit(x != y)
  {
    if x == 1 {
      assert x / 2 == 0 && y / 2 == 0;
      assert BitAnd(0, 0) == 0 && BitOr(0, 0) == 0 && BitXor(0, 0) == 0;
    }
  }

  // ----- concatenation and extraction -----

  function ConcatBits(l: nat, r: nat, rw: nat): nat
  {
    l * Pow2(rw) + r
  }

  function ExtractBits(v: nat, off: nat, w: nat): (x: nat)
    ensures x < Pow2(w)
  {
    (v / Pow2(off)) % Pow2(w)
  }

  lemma ConcatBound(l: nat, r: nat, lw: nat, rw: nat)
    requires l < Pow2(lw) && r < Pow2(rw)
    ensures ConcatBits(l, r, rw) < Pow2(lw + rw)
  {
    Pow2Add(lw, rw);
    MulPos(l, Pow2(rw), Pow2(lw));
  }

  lemma ExtractAll(v: nat, w: nat)
    requires v < Pow2(w)
    ensures ExtractBits(v, 0, w) == v
  {
    ModSmall(v, Pow2(w));
  }

  /** An extract that skips the right part of a concatenation. */
  lemma ExtractHigh(l: nat, r: nat, rw: nat, off: nat, w: nat)
    requires r < Pow2(rw) && off >= rw
    ensures ExtractBits(ConcatBits(l, r, rw), off, w) == ExtractBits(l, off - rw, w)
  {
    var c := ConcatBits(l, r, rw);
    Pow2Add(rw, off - rw);
    DivDiv(c, Pow2(rw), Pow2(off - rw));
    ModUnique(c, l, r, Pow2(rw));
  }

  lemma AddMulDiv(k: int, r: int, m: nat)
    requires m > 0
    ensures (k * m + r) / m == k + r / m
  {
    DivMod(r, m);
    Distribute(k, r / m, m);
    ModUnique(k * m + r, k + r / m, r % m, m);
  }

  lemma MulAssoc(x: int, y: int, z: int)
    ensures (x * y) * z == x * (y * z) && x * y == y * x
  {
  }

  /** An extract that skips the left part. */
  lemma ExtractLow(l: nat, r: nat, rw: nat, off: nat, w: nat)
    requires off + w <= rw
    ensures ExtractBits(ConcatBits(l, r, rw), off, w) == ExtractBits(r, off, w)
  {
    var a, b, d := Pow2(off), Pow2(w), Pow2(rw - off - w);
    assert Pow2(rw) == (d * b) * a by {
      Pow2Add(rw - off, off);
      Pow2Add(rw - off - w, w);
    }
    assert l * Pow2(rw) == ((l * d) * b) * a by {
      MulAssoc(l, d * b, a);
      MulAssoc(l, d, b);
    }
    AddMulDiv((l * d) * b, r, a);
    ModShift(r / a, l * d, b);
  }

  lemma DivPow2(v: nat, m: nat, n: nat)
    ensures v / Pow2(m + n) == (v / Pow2(m)) / Pow2(n)
  {
    Pow2Add(m, n);
    DivDiv(v, Pow2(m), Pow2(n));
  }

  lemma ModPow2(q: nat, m: nat, n: nat)
    ensures ((q / Pow2(m)) % Pow2(n)) * Pow2(m) + q % Pow2(m) == q % Pow2(n + m)
  {
    Pow2Add(m, n);
    DivDiv(q, Pow2(m), Pow2(n));
  }

  /** Two adjacent extracts of one word put side by side are one extract. */
  lemma ExtractJoin(v: nat, off: nat, rw: nat, lw: nat)
    ensures ConcatBits(ExtractBits(v, off + rw, lw), ExtractBits(v, off, rw), rw) == ExtractBits(v, off, lw + rw)
  {
    DivPow2(v, off, rw);
    ModPow2(v / Pow2(off), rw, lw);
  }

  /** An extract that straddles the seam of a concatenation. */
  lemma ExtractStraddle(l: nat, r: nat, lw: nat, rw: nat, off: nat, w: nat)
    requires l < Pow2(lw) && r < Pow2(rw) && off < rw < off + w <= lw + rw
    ensures ExtractBits(ConcatBits(l, r, rw), off, w)
         == ConcatBits(ExtractBits(l, 0, w - rw + off), ExtractBits(r, off, rw - off), rw - off)
  {
    var c := ConcatBits(l, r, rw);
    ExtractJoin(c, off, rw - off, w - rw + off);
    ExtractHigh(l, r, rw, rw, w - rw + off);
    ExtractLow(l, r, rw, off, rw - off);
  }

  lemma SplitWord(q: nat, w: nat) returns (h: nat, l: nat)
    ensures q == ConcatBits(h, l, w) && l == q % Pow2(w)
  {
    DivMod(q, Pow2(w));
    h, l := q / Pow2(w), q % Pow2(w);
  }
}
