/** Machine-integer widths, optional/fallible results, and the bit arithmetic
    shared by the C++ firmware and the Python inverter scripts.

    Dafny integers are unbounded; every width, reinterpretation and
    truncating operation used by the firmware is written out here. */
module Base {

  type byte = x: int | 0 <= x < 0x100
  type u16 = x: int | 0 <= x < 0x1_0000
  type u32 = x: int | 0 <= x < 0x1_0000_0000

  datatype Option<+T> = None | Some(value: T)

  datatype Result<+T, +E> = Ok(value: T) | Err(error: E)

  function Min(a: int, b: int): int
  {
    if a <= b then a else b
  }

  function Max(a: int, b: int): int
  {
    if a >= b then a else b
  }

  function Pow2(n: nat): (r: nat)
    ensures r >= 1
  {
    if n == 0 then 1 else 2 * Pow2(n - 1)
  }

  /** `(int16_t)u`: the two's-complement reading of a 16-bit register. */
  function AsInt16(u: u16): (r: int)
    ensures -0x8000 <= r < 0x8000
    ensures r % 0x1_0000 == u
    ensures r >= 0 <==> u < 0x8000
  {
    if u < 0x8000 then u else u - 0x1_0000
  }

  /** C/C++ integer division, which truncates toward zero (Dafny's `/` is Euclidean). */
  function TruncDiv(a: int, d: int): (q: int)
    requires d > 0
    ensures a >= 0 ==> q * d <= a < q * d + d
    ensures a < 0 ==> q * d - d < a <= q * d
    ensures (a >= 0 ==> q >= 0) && (a <= 0 ==> q <= 0)
  {
    if a >= 0 then a / d else -((-a) / d)
  }

  /** Bit `i` of a non-negative integer: Python's `(v >> i) & 1 == 1`. */
  function Bit(v: nat, i: nat): bool
  {
    if i == 0 then v % 2 == 1 else Bit(v / 2, i - 1)
  }

  /** `v | (1 << k)` when `on`, `v & ~(1 << k)` otherwise, for a non-negative `v`. */
  function WithBit(v: nat, k: nat, on: bool): nat
  {
    if k == 0 then (v / 2) * 2 + (if on then 1 else 0)
    else WithBit(v / 2, k - 1, on) * 2 + v % 2
  }

  /** `v & (2^n - 1)`: the low `n` bits of a non-negative integer. */
  function Low(v: nat, n: nat): nat
  {
    if n == 0 then 0 else Low(v / 2, n - 1) * 2 + v % 2
  }

  lemma {:induction false} ZeroHasNoBits(i: nat)
    ensures !Bit(0, i)
  {
    if i > 0 {
      ZeroHasNoBits(i - 1);
    }
  }

  /** Setting or clearing bit `k` changes bit `k` and no other bit. */
  lemma {:induction false} WithBitBits(v: nat, k: nat, on: bool, j: nat)
    ensures Bit(WithBit(v, k, on), j) == (if j == k then on else Bit(v, j))
  {
    var w := WithBit(v, k, on);
    if k == 0 {
      assert w / 2 == v / 2;
    } else {
      var inner := WithBit(v / 2, k - 1, on);
      assert w / 2 == inner && w % 2 == v % 2;
      if j > 0 {
        WithBitBits(v / 2, k - 1, on, j - 1);
      }
    }
  }

  /** Setting (or clearing) a bit twice is the same as doing it once. */
  lemma {:induction false} WithBitIdempotent(v: nat, k: nat, on: bool)
    ensures WithBit(WithBit(v, k, on), k, on) == WithBit(v, k, on)
  {
    var w := WithBit(v, k, on);
    if k == 0 {
      assert w / 2 == v / 2;
    } else {
      var inner := WithBit(v / 2, k - 1, on);
      assert w / 2 == inner && w % 2 == v % 2;
      WithBitIdempotent(v / 2, k - 1, on);
    }
  }

  /** A value of the form `q * 2 + r` halves to `q` with remainder `r`. */
  lemma DivMod2(q: nat, r: nat)
    requires r < 2
    ensures (q * 2 + r) / 2 == q && (q * 2 + r) % 2 == r
  {
  }

  /** The half and the parity of an updated value. */
  lemma WithBitHalves(v: nat, k: nat, on: bool)
    ensures var w := WithBit(v, k, on);
      && (k == 0 ==> w / 2 == v / 2 && w % 2 == (if on then 1 else 0))
      && (k > 0 ==> w / 2 == WithBit(v / 2, k - 1, on) && w % 2 == v % 2)
  {
    if k == 0 {
      DivMod2(v / 2, if on then 1 else 0);
    } else {
      DivMod2(WithBit(v / 2, k - 1, on), v % 2);
    }
  }

  /** Two updates of different bits commute. */
  lemma {:induction false} WithBitCommutes(v: nat, k1: nat, on1: bool, k2: nat, on2: bool)
    requires k1 != k2
    ensures WithBit(WithBit(v, k1, on1), k2, on2) == WithBit(WithBit(v, k2, on2), k1, on1)
  {
    var a := WithBit(v, k1, on1);
    var b := WithBit(v, k2, on2);
    var l := WithBit(a, k2, on2);
    var r := WithBit(b, k1, on1);
    WithBitHalves(v, k1, on1);
    WithBitHalves(v, k2, on2);
    WithBitHalves(a, k2, on2);
    WithBitHalves(b, k1, on1);
    if k1 > 0 && k2 > 0 {
      WithBitCommutes(v / 2, k1 - 1, on1, k2 - 1, on2);
    }
    assert l / 2 == r / 2 && l % 2 == r % 2;
  }

  /** Masking keeps exactly the bits below `n`. */
  lemma {:induction false} LowBits(v: nat, n: nat, j: nat)
    ensures Bit(Low(v, n), j) == (j < n && Bit(v, j))
  {
    if n == 0 {
      ZeroHasNoBits(j);
    } else {
      var l := Low(v, n);
      assert l / 2 == Low(v / 2, n - 1) && l % 2 == v % 2;
      if j > 0 {
        LowBits(v / 2, n - 1, j - 1);
      }
    }
  }

  lemma {:induction false} LowBound(v: nat, n: nat)
    ensures Low(v, n) < Pow2(n)
  {
    if n > 0 {
      LowBound(v / 2, n - 1);
    }
  }

  /** Masking a value that already fits in `n` bits leaves it unchanged. */
  lemma {:induction false} LowOfSmall(v: nat, n: nat)
    requires v < Pow2(n)
    ensures Low(v, n) == v
  {
    if n > 0 {
      LowOfSmall(v / 2, n - 1);
    }
  }

  /** An update of a bit at or above `n` disappears under the `n`-bit mask. */
  lemma {:induction false} LowIgnoresHighUpdate(v: nat, k: nat, on: bool, n: nat)
    requires k >= n
    ensures Low(WithBit(v, k, on), n) == Low(v, n)
  {
    if n > 0 {
      var w := WithBit(v, k, on);
      var inner := WithBit(v / 2, k - 1, on);
      assert w / 2 == inner && w % 2 == v % 2;
      LowIgnoresHighUpdate(v / 2, k - 1, on, n - 1);
    }
  }

  /** An update of a bit below `n` keeps an `n`-bit value within `n` bits. */
  lemma {:induction false} WithBitBound(v: nat, k: nat, on: bool, n: nat)
    requires v < Pow2(n) && k < n
    ensures WithBit(v, k, on) < Pow2(n)
  {
    var p := Pow2(n - 1);
    assert Pow2(n) == 2 * p;
    assert v / 2 < p;
    if k == 0 {
      assert (v / 2) * 2 <= 2 * p - 2;
    } else {
      WithBitBound(v / 2, k - 1, on, n - 1);
      var inner := WithBit(v / 2, k - 1, on);
      assert inner * 2 <= 2 * p - 2;
    }
  }

  /** Masking to `n` bits commutes with an update of a bit below `n`. */
  lemma {:induction false} LowWithBit(v: nat, k: nat, on: bool, n: nat)
    requires k < n
    ensures Low(WithBit(v, k, on), n) == WithBit(Low(v, n), k, on)
  {
    var w := WithBit(v, k, on);
    var l := Low(v, n);
    assert l / 2 == Low(v / 2, n - 1) && l % 2 == v % 2;
    if k > 0 {
      var inner := WithBit(v / 2, k - 1, on);
      assert w / 2 == inner && w % 2 == v % 2;
      LowWithBit(v / 2, k - 1, on, n - 1);
    }
  }

  /** Two `n`-bit values with the same bits are equal. */
  lemma {:induction false} BitsExtensional(a: nat, b: nat, n: nat)
    requires a < Pow2(n) && b < Pow2(n)
    requires forall j :: 0 <= j < n ==> Bit(a, j) == Bit(b, j)
    ensures a == b
  {
    if n > 0 {
      assert Bit(a, 0) == Bit(b, 0);
      forall j | 0 <= j < n - 1 ensures Bit(a / 2, j) == Bit(b / 2, j) {
        assert Bit(a, j + 1) == Bit(b, j + 1);
      }
      BitsExtensional(a / 2, b / 2, n - 1);
    }
  }

  lemma Pow2Of16()
    ensures Pow2(16) == 0x1_0000
  {
    assert Pow2(4) == 16 by {
      assert Pow2(1) == 2 && Pow2(2) == 4 && Pow2(3) == 8;
    }
    assert Pow2(8) == 256 by {
      assert Pow2(5) == 32 && Pow2(6) == 64 && Pow2(7) == 128;
    }
    assert Pow2(12) == 4096 by {
      assert Pow2(9) == 512 && Pow2(10) == 1024 && Pow2(11) == 2048;
    }
    assert Pow2(13) == 8192 && Pow2(14) == 16384 && Pow2(15) == 32768;
  }

  /** Multiplying by a non-negative factor keeps an order. */
  lemma MulMono(a: int, b: int, c: nat)
    requires a <= b
    ensures a * c <= b * c
  {
  }
}
