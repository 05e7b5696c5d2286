/**
 * Fixed-width unsigned words as sequences of bits. Element i of a Word is
 * the bit of weight 2^i, so a W-bit C integer (CData, SData, IData, QData,
 * EData) is a Word of length W and the C bitwise operators act bit by bit.
 */
module Bits {

  type Word = seq<bool>

  function Pow2(n: nat): (r: nat)
    ensures r >= 1
  {
    if n == 0 then 1 else 2 * Pow2(n - 1)
  }

  /** The all-zero word of width w. */
  function Zero(w: nat): (r: Word)
    ensures |r| == w && forall i | 0 <= i < w :: !r[i]
  {
    seq(w, i requires 0 <= i < w => false)
  }

  /** Ones in the low n bits: the C expression `(1 << n) - 1` for n < w, all ones for n >= w. */
  function Ones(w: nat, n: nat): (r: Word)
    ensures |r| == w && forall i | 0 <= i < w :: r[i] == (i < n)
  {
    seq(w, i requires 0 <= i < w => i < n)
  }

  /** `~0` of width w. */
  function AllOnes(w: nat): (r: Word)
    ensures |r| == w && forall i | 0 <= i < w :: r[i]
  {
    Ones(w, w)
  }

  function And(a: Word, b: Word): (r: Word)
    requires |a| == |b|
    ensures |r| == |a| && forall i | 0 <= i < |a| :: r[i] == (a[i] && b[i])
  {
    seq(|a|, i requires 0 <= i < |a| => a[i] && b[i])
  }

  function Or(a: Word, b: Word): (r: Word)
    requires |a| == |b|
    ensures |r| == |a| && forall i | 0 <= i < |a| :: r[i] == (a[i] || b[i])
  {
    seq(|a|, i requires 0 <= i < |a| => a[i] || b[i])
  }

  function Xor(a: Word, b: Word): (r: Word)
    requires |a| == |b|
    ensures |r| == |a| && forall i | 0 <= i < |a| :: r[i] == (a[i] != b[i])
  {
    seq(|a|, i requires 0 <= i < |a| => a[i] != b[i])
  }

  function Not(a: Word): (r: Word)
    ensures |r| == |a| && forall i | 0 <= i < |a| :: r[i] == !a[i]
  {
    seq(|a|, i requires 0 <= i < |a| => !a[i])
  }

  /** `a << k`: bits shifted out at the top are lost, zeros come in at the bottom. */
  function Shl(a: Word, k: nat): (r: Word)
    ensures |r| == |a| && forall i | 0 <= i < |a| :: r[i] == (i >= k && a[i - k])
  {
    seq(|a|, i requires 0 <= i < |a| => i >= k && a[i - k])
  }

  /** `a >> k` on an unsigned word: zeros come in at the top. */
  function Shr(a: Word, k: nat): (r: Word)
    ensures |r| == |a| && forall i | 0 <= i < |a| :: r[i] == (i + k < |a| && a[i + k])
  {
    seq(|a|, i requires 0 <= i < |a| => i + k < |a| && a[i + k])
  }

  /** A word is non-zero, the C truth value of an integer. */
  predicate NonZero(a: Word)
  {
    exists i | 0 <= i < |a| :: a[i]
  }

  /** The unsigned value of a word. */
  function ToNat(a: Word): (r: nat)
    ensures r < Pow2(|a|)
  {
    if a == [] then 0 else (if a[0] then 1 else 0) + 2 * ToNat(a[1..])
  }

  /** The low w bits of v, as the conversion of an integer to a w-bit unsigned type. */
  function FromNat(v: nat, w: nat): (r: Word)
    ensures |r| == w
  {
    if w == 0 then [] else [v % 2 == 1] + FromNat(v / 2, w - 1)
  }

  /** Conversion to a narrower unsigned type keeps the low bits; to a wider one zero-extends. */
  function Resize(a: Word, w: nat): (r: Word)
    ensures |r| == w
    ensures forall i | 0 <= i < w :: r[i] == (i < |a| && a[i])
  {
    if w <= |a| then a[..w] else a + Zero(w - |a|)
  }

  lemma {:induction false} FromNatToNat(v: nat, w: nat)
    ensures ToNat(FromNat(v, w)) == v % Pow2(w)
    decreases w
  {
    if w > 0 {
      var r := FromNat(v, w);
      assert r[1..] == FromNat(v / 2, w - 1);
      FromNatToNat(v / 2, w - 1);
      DivModStep(v, Pow2(w - 1));
    }
  }

  /** v mod 2^(n+1) is its low bit plus twice (v div 2) mod 2^n. */
  lemma DivModStep(v: nat, p: nat)
    requires p >= 1
    ensures v % (2 * p) == v % 2 + 2 * ((v / 2) % p)
  {
    var q := (v / 2) / p;
    var r := (v / 2) % p;
    assert v / 2 == q * p + r;
    assert v == 2 * q * p + 2 * r + v % 2;
    assert 0 <= 2 * r + v % 2 < 2 * p;
    assert v == (2 * p) * q + (2 * r + v % 2);
    DivModUnique(v, 2 * p, q, 2 * r + v % 2);
  }

  lemma DivModUnique(v: nat, d: nat, q: nat, r: nat)
    requires d >= 1 && v == d * q + r && r < d
    ensures v % d == r && v / d == q
  {
    MulAtLeast(d, q - v / d);
  }

  lemma MulAtLeast(d: int, k: int)
    requires d >= 0
    ensures k >= 1 ==> d * k >= d
    ensures k <= -1 ==> d * k <= -d
  {
    if k >= 1 {
      assert d * k == d + d * (k - 1);
    } else if k <= -1 {
      assert d * k == -d + d * (k + 1);
    }
  }

  lemma {:induction false} ToNatFromNat(a: Word)
    ensures FromNat(ToNat(a), |a|) == a
    decreases |a|
  {
    if a != [] {
      var v := ToNat(a);
      assert v % 2 == (if a[0] then 1 else 0);
      assert v / 2 == ToNat(a[1..]);
      ToNatFromNat(a[1..]);
      assert FromNat(v, |a|) == [a[0]] + a[1..];
    }
  }

  /** Two words of one width with the same value are the same word. */
  lemma ToNatInjective(a: Word, b: Word)
    requires |a| == |b| && ToNat(a) == ToNat(b)
    ensures a == b
  {
    ToNatFromNat(a);
    ToNatFromNat(b);
  }

  lemma SmallFromNatToNat(v: nat, w: nat)
    requires v < Pow2(w)
    ensures ToNat(FromNat(v, w)) == v
  {
    FromNatToNat(v, w);
  }

  /** Bit j of the binary representation of v. */
  function BitOf(v: nat, j: nat): bool
  {
    (v / Pow2(j)) % 2 == 1
  }

  lemma {:induction false} FromNatBit(v: nat, w: nat, j: nat)
    requires j < w
    ensures FromNat(v, w)[j] == BitOf(v, j)
    decreases j
  {
    if j > 0 {
      FromNatBit(v / 2, w - 1, j - 1);
      DivDiv(v, 2, Pow2(j - 1));
    }
  }

  lemma DivDiv(v: nat, a: nat, b: nat)
    requires a >= 1 && b >= 1
    ensures v / a / b == v / (a * b)
  {
    var q := v / a / b;
    var r := v / a % b;
    var s := v % a;
    var d := v / a;
    assert d == b * q + r;
    assert v == a * d + s;
    MulDistrib(a, b * q, r);
    MulAssocNat(a, b, q);
    assert v == (a * b) * q + (a * r + s);
    MulAtLeast(a, b - r);
    MulDistrib(a, b - r, r);
    assert a * r + s < a * b;
    DivModUnique(v, a * b, q, a * r + s);
  }

  lemma MulDistrib(a: int, b: int, c: int)
    ensures a * (b + c) == a * b + a * c
  {
  }

  lemma MulAssocNat(a: int, b: int, c: int)
    ensures a * (b * c) == (a * b) * c
  {
  }

  lemma WordBitOf(a: Word, j: nat)
    requires j < |a|
    ensures a[j] == BitOf(ToNat(a), j)
  {
    ToNatFromNat(a);
    FromNatBit(ToNat(a), |a|, j);
  }

  lemma {:induction false} Pow2Mono(a: nat, b: nat)
    requires a <= b
    ensures Pow2(a) <= Pow2(b)
    decreases b
  {
    if a < b {
      Pow2Mono(a, b - 1);
    }
  }

  lemma Pow2Add(a: nat, b: nat)
    ensures Pow2(a + b) == Pow2(a) * Pow2(b)
    decreases a
  {
    if a > 0 {
      Pow2Add(a - 1, b);
      assert Pow2(a + b) == 2 * Pow2(a - 1 + b);
    }
  }

  /** The powers of two the value paths use as word ranges. */
  lemma Pow2Small()
    ensures Pow2(3) == 8 && Pow2(4) == 16 && Pow2(8) == 256
  {
  }

  lemma Pow2Values()
    ensures Pow2(32) == 0x1_0000_0000 && Pow2(64) == 0x1_0000_0000_0000_0000
  {
    Pow2Word();
    Pow2Add(32, 32);
  }

  lemma Pow2Word()
    ensures Pow2(32) == 0x1_0000_0000
  {
    assert Pow2(8) == 256;
    Pow2Add(8, 8);
    Pow2Add(16, 16);
  }

  /** Bits above the n-th that are all clear add nothing to the value. */
  lemma {:induction false} ToNatHighZero(a: Word, n: nat)
    requires n <= |a| && forall j | n <= j < |a| :: !a[j]
    ensures ToNat(a) == ToNat(a[..n])
    decreases |a|
  {
    if a != [] {
      if n == 0 {
        ToNatHighZero(a[1..], 0);
      } else {
        ToNatHighZero(a[1..], n - 1);
        assert a[..n][1..] == a[1..][..n - 1];
      }
    }
  }

  /** The value of a concatenation: the high part is shifted up by the low part's width. */
  lemma {:induction false} ToNatConcat(a: Word, b: Word)
    ensures ToNat(a + b) == ToNat(a) + Pow2(|a|) * ToNat(b)
    decreases |a|
  {
    if a != [] {
      ToNatConcat(a[1..], b);
      assert (a + b)[1..] == a[1..] + b;
      assert (a + b)[0] == a[0];
      ShiftedSum(if a[0] then 1 else 0, ToNat(a[1..]), ToNat(a[1..] + b), ToNat(b), Pow2(|a| - 1));
    } else {
      assert a + b == b;
    }
  }

  lemma ShiftedSum(x: int, lo: int, whole: int, hi: int, p: int)
    requires whole == lo + p * hi
    ensures x + 2 * whole == (x + 2 * lo) + (2 * p) * hi
  {
  }

  lemma MulMono(g: nat, a: nat, b: nat)
    requires a <= b
    ensures g * a <= g * b
  {
    if a < b {
      MulAtLeast(g, b - a);
      assert g * b == g * a + g * (b - a);
    }
  }

  /** Division by g compared with a bound, stated with multiplication. */
  lemma DivLess(k: nat, g: nat, i: nat)
    requires g > 0
    ensures k / g < i <==> k < g * i
  {
    var q, r := k / g, k % g;
    assert k == g * q + r;
    if q < i {
      MulMono(g, q + 1, i);
      assert g * (q + 1) == g * q + g;
    } else {
      MulMono(g, i, q);
    }
  }

  lemma IntDivModUnique(v: int, d: nat, q: int, r: nat)
    requires d >= 1 && v == d * q + r && r < d
    ensures v % d == r && v / d == q
  {
    MulAtLeast(d, q - v / d);
  }

  lemma DivMod(x: int, d: nat)
    requires d >= 1
    ensures x == d * (x / d) + x % d && 0 <= x % d < d
  {
  }

  lemma DivAddMul(x: nat, d: nat, m: nat)
    requires d >= 1
    ensures (x + d * m) / d == x / d + m && (x + d * m) % d == x % d
  {
    assert d * (x / d + m) == d * (x / d) + d * m;
    DivModUnique(x + d * m, d, x / d + m, x % d);
  }

  lemma BitOfStep(n: nat, k: nat)
    requires k > 0
    ensures BitOf(n, k) == BitOf(n / 2, k - 1)
  {
    DivDiv(n, 2, Pow2(k - 1));
  }

  lemma Pow2Times(g: nat, b: nat)
    requires g > 0
    ensures Pow2(g) * b == 2 * (Pow2(g - 1) * b)
  {
  }

  lemma {:induction false} BitOfLow(a: nat, b: nat, g: nat, k: nat)
    requires k < g
    ensures BitOf(a + Pow2(g) * b, k) == BitOf(a, k)
    decreases k
  {
    var c := Pow2(g - 1) * b;
    var x := a + Pow2(g) * b;
    Pow2Times(g, b);
    assert x == a + 2 * c;
    DivAddMul(a, 2, c);
    if k > 0 {
      BitOfStep(x, k);
      BitOfStep(a, k);
      assert x / 2 == a / 2 + Pow2(g - 1) * b;
      BitOfLow(a / 2, b, g - 1, k - 1);
    } else {
      assert x / Pow2(0) == x && a / Pow2(0) == a;
      assert x % 2 == a % 2;
    }
  }

  lemma {:induction false} BitOfHigh(a: nat, b: nat, g: nat, k: nat)
    requires a < Pow2(g) && g <= k
    ensures BitOf(a + Pow2(g) * b, k) == BitOf(b, k - g)
    decreases g
  {
    if g > 0 {
      var c := Pow2(g - 1) * b;
      Pow2Times(g, b);
      DivAddMul(a, 2, c);
      BitOfStep(a + Pow2(g) * b, k);
      BitOfHigh(a / 2, b, g - 1, k - 1);
    }
  }

  lemma BitOfMod(n: nat, m: nat, k: nat)
    requires k < m
    ensures BitOf(n % Pow2(m), k) == BitOf(n, k)
  {
    var p := Pow2(m);
    var q, r := n / p, n % p;
    DivMod(n, p);
    assert n == r + p * q;
    BitOfLow(r, q, m, k);
  }

  lemma ModMod(x: int, a: nat, b: nat)
    requires b <= a
    ensures (x % Pow2(a)) % Pow2(b) == x % Pow2(b)
  {
    var pb, c := Pow2(b), Pow2(a - b);
    Pow2Add(b, a - b);
    ModSplit(x, pb, c);
    var r0, t := x % pb, (x / pb) % c;
    DivAddMul(r0, pb, t);
    DivModUnique(r0, pb, 0, r0);
  }

  lemma ModSplit(x: int, a: nat, b: nat)
    requires a >= 1 && b >= 1
    ensures x % (a * b) == x % a + a * ((x / a) % b)
  {
    var q, r := (x / a) / b, (x / a) % b;
    assert x / a == b * q + r;
    assert x == a * (x / a) + x % a;
    assert x == (a * b) * q + (a * r + x % a) by {
      assert a * (b * q + r) == (a * b) * q + a * r;
    }
    assert a * r + x % a < a * b by {
      MulAtLeast(a, b - r);
      assert a * (b - r) == a * b - a * r;
    }
    IntDivModUnique(x, a * b, q, a * r + x % a);
  }
}
