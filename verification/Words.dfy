/**
 Unsigned 32-bit machine words as the kernel's C code uses them.

 A word is a natural number below 2^32. The bitwise operators are defined on binary digits, least significant first;
 arithmetic that can wrap in C is written with `Wrap`.
 */
module Words {

  const TWO_32: nat := 0x1_0000_0000

  type Word = w: nat | w < TWO_32

  datatype Option<+T> = None | Some(value: T)

  /** C conversion of a mathematical result to `uint32_t`. */
  function Wrap(x: int): Word {
    x % TWO_32
  }

  /** The macro DIV_ROUND_UP on `uint32_t` operands: `a - 1` wraps when `a` is 0. */
  function DivRoundUp(a: Word, b: nat): (r: nat)
    requires b > 0
    ensures r > 0
  {
    Wrap(a - 1) / b + 1
  }

  lemma RoundedUp(a: Word, b: nat)
    requires b > 0
    ensures var r := DivRoundUp(a, b); a > 0 ==> (r - 1) * b < a <= r * b
    ensures var r := DivRoundUp(a, b); a == 0 ==> (r - 1) * b < TWO_32 <= r * b
  {
    var d := Wrap(a - 1);
    assert d == d / b * b + d % b;
  }

  function Pow2(n: nat): (r: nat)
    ensures r > 0
  {
    if n == 0 then 1 else 2 * Pow2(n - 1)
  }

  /** Binary digit `k` of `w`. */
  predicate Bit(w: nat, k: nat) {
    if k == 0 then w % 2 == 1 else Bit(w / 2, k - 1)
  }

  function Or(a: nat, b: nat): nat {
    if a == 0 && b == 0 then 0
    else 2 * Or(a / 2, b / 2) + (if a % 2 == 1 || b % 2 == 1 then 1 else 0)
  }

  function And(a: nat, b: nat): nat {
    if a == 0 || b == 0 then 0
    else 2 * And(a / 2, b / 2) + (if a % 2 == 1 && b % 2 == 1 then 1 else 0)
  }

  function Not(w: Word): Word {
    0xFFFF_FFFF - w
  }

  // ----- Digits of the operators

  lemma {:induction false} ZeroBit(k: nat)
    ensures !Bit(0, k)
  {
    if k > 0 {
      ZeroBit(k - 1);
    }
  }

  lemma {:induction false} OrHalf(a: nat, b: nat)
    ensures Or(a, b) / 2 == Or(a / 2, b / 2)
    ensures Or(a, b) % 2 == 1 <==> a % 2 == 1 || b % 2 == 1
  {
  }

  lemma {:induction false} OrBit(a: nat, b: nat, k: nat)
    ensures Bit(Or(a, b), k) <==> Bit(a, k) || Bit(b, k)
  {
    OrHalf(a, b);
    if k > 0 {
      OrBit(a / 2, b / 2, k - 1);
    }
  }

  lemma {:induction false} AndBit(a: nat, b: nat, k: nat)
    ensures Bit(And(a, b), k) <==> Bit(a, k) && Bit(b, k)
  {
    if a == 0 || b == 0 {
      ZeroBit(k);
    } else if k > 0 {
      AndBit(a / 2, b / 2, k - 1);
    }
  }

  lemma {:induction false} Pow2Bit(n: nat, k: nat)
    ensures Bit(Pow2(n), k) <==> k == n
  {
    if n == 0 {
      if k > 0 { ZeroBit(k - 1); }
    } else if k > 0 {
      Pow2Bit(n - 1, k - 1);
    }
  }

  lemma {:induction false} ComplementBit(n: nat, w: nat, k: nat)
    requires w < Pow2(n) && k < n
    ensures Bit(Pow2(n) - 1 - w, k) <==> !Bit(w, k)
  {
    if k > 0 {
      assert (Pow2(n) - 1 - w) / 2 == Pow2(n - 1) - 1 - w / 2;
      ComplementBit(n - 1, w / 2, k - 1);
    }
  }

  lemma Pow2Of32()
    ensures Pow2(32) == TWO_32 && Pow2(12) == 4096 && Pow2(20) == 0x10_0000
  {
    assert Pow2(8) == 256;
    assert Pow2(12) == 4096;
    assert Pow2(20) == 0x10_0000;
    assert Pow2(28) == 0x1000_0000;
  }

  lemma {:induction false} NotBit(w: Word, k: nat)
    requires k < 32
    ensures Bit(Not(w), k) <==> !Bit(w, k)
  {
    Pow2Of32();
    ComplementBit(32, w, k);
  }

  lemma {:induction false} AllOnesBit(k: nat)
    requires k < 32
    ensures Bit(0xFFFF_FFFF, k)
  {
    NotBit(0, k);
    ZeroBit(k);
  }

  // ----- Ranges of the operators

  lemma {:induction false} OrRange(a: nat, b: nat, n: nat)
    requires a < Pow2(n) && b < Pow2(n)
    ensures Or(a, b) < Pow2(n)
  {
    if n > 0 {
      OrRange(a / 2, b / 2, n - 1);
    }
  }

  lemma {:induction false} AndRange(a: nat, b: nat)
    ensures And(a, b) <= a
  {
    if a != 0 && b != 0 {
      AndRange(a / 2, b / 2);
    }
  }

  lemma {:induction false} Pow2Mono(m: nat, n: nat)
    requires m < n
    ensures Pow2(m) < Pow2(n)
  {
    if m + 1 < n {
      Pow2Mono(m, n - 1);
    }
  }

  // ----- Masks

  /** Testing a word against a one-bit mask tests that bit. */
  lemma {:induction false} TestBit(w: nat, k: nat)
    ensures And(w, Pow2(k)) != 0 <==> Bit(w, k)
  {
    if k == 0 {
      assert w != 0 ==> And(w, 1) == 2 * And(w / 2, 0) + (if w % 2 == 1 then 1 else 0);
    } else if w == 0 {
      ZeroBit(k);
    } else {
      TestBit(w / 2, k - 1);
    }
  }

  /** Or-ing flags into a word whose low bits are clear adds them. */
  lemma {:induction false} OrLow(a: nat, f: nat, n: nat)
    requires f < Pow2(n)
    ensures Or(a * Pow2(n), f) == a * Pow2(n) + f
  {
    if n == 0 {
      OrZero(a);
    } else {
      var p := Pow2(n - 1);
      assert a * Pow2(n) == 2 * (a * p);
      OrLow(a, f / 2, n - 1);
    }
  }

  lemma {:induction false} OrZero(a: nat)
    ensures Or(a, 0) == a
  {
    if a > 0 {
      OrZero(a / 2);
    }
  }

  /** Masking with a block `m` of ones above `n` clear bits clears the low `n` bits. */
  lemma {:induction false} AndHigh(w: nat, h: nat, n: nat, m: nat, p: nat)
    requires w < Pow2(h + n) && m == Pow2(h) - 1 && p == Pow2(n)
    ensures And(w, m * p) == w - w % p
  {
    if n == 0 {
      AndOnes(w, h);
    } else {
      var q := Pow2(n - 1);
      assert m * p == 2 * (m * q);
      AndDouble(w, m * q);
      AndHigh(w / 2, h, n - 1, m, q);
      HalfMod(w, q);
    }
  }

  lemma {:induction false} AndDouble(w: nat, x: nat)
    ensures And(w, 2 * x) == 2 * And(w / 2, x)
  {
  }

  lemma {:induction false} AndOnes(w: nat, n: nat)
    requires w < Pow2(n)
    ensures And(w, Pow2(n) - 1) == w
  {
    if w > 0 {
      assert (Pow2(n) - 1) / 2 == Pow2(n - 1) - 1;
      AndOnes(w / 2, n - 1);
    }
  }

  lemma HalfMod(w: nat, p: nat)
    requires p > 0
    ensures w % (2 * p) == 2 * (w / 2 % p) + w % 2
  {
    var q, r := w / 2 / p, w / 2 % p;
    assert w / 2 == q * p + r;
    assert w == q * (2 * p) + (2 * r + w % 2);
    ModUnique(w, 2 * p, q, 2 * r + w % 2);
  }

  lemma ModUnique(x: nat, d: nat, q: nat, r: nat)
    requires 0 <= r < d && x == q * d + r
    ensures x % d == r && x / d == q
  {
    var q', r' := x / d, x % d;
    assert x == q' * d + r';
    if q < q' {
      MulLe(q + 1, q', d);
    } else if q' < q {
      MulLe(q' + 1, q, d);
    }
  }

  lemma MulLe(a: int, b: int, d: nat)
    requires a <= b
    ensures a * d <= b * d
  {
  }

  /** Masking an address with 0xFFFFF000 rounds it down to its page. */
  lemma {:induction false} AndHigh32(w: Word)
    ensures And(w, 0xFFFF_F000) == w - w % 4096
  {
    Pow2Of32();
    assert 0xF_FFFF * 4096 == 0xFFFF_F000;
    AndHigh(w, 20, 12, 0xF_FFFF, 4096);
  }

  lemma {:induction false} OrOne(a: nat)
    requires a % 2 == 0
    ensures Or(a, 1) == a + 1
  {
    OrZero(a / 2);
  }

  lemma {:induction false} OrOneTwo(a: nat)
    requires a % 4 == 0
    ensures Or(Or(a, 1), 2) == a + 3
  {
    OrOne(a);
    OrTwo(a + 1);
  }

  lemma {:induction false} OrTwo(a: nat)
    requires a % 4 == 1
    ensures Or(a, 2) == a + 2
  {
    OrOne(a / 2);
  }
}
