/** Machine words as naturals: the bitwise operators, bit by bit, and how they act on the two
    halves of a word. */
module Bits {
  function Pow2(n: nat): (p: nat)
    ensures p >= 1
  {
    if n == 0 then 1 else 2 * Pow2(n - 1)
  }

  function And(x: nat, y: nat): nat {
    if x == 0 || y == 0 then 0 else 2 * And(x / 2, y / 2) + (if x % 2 == 1 && y % 2 == 1 then 1 else 0)
  }

  function Or(x: nat, y: nat): nat
    decreases x + y
  {
    if x == 0 then y else if y == 0 then x
    else 2 * Or(x / 2, y / 2) + (if x % 2 == 1 || y % 2 == 1 then 1 else 0)
  }

  function Xor(x: nat, y: nat): nat
    decreases x + y
  {
    if x == 0 then y else if y == 0 then x
    else 2 * Xor(x / 2, y / 2) + (if x % 2 != y % 2 then 1 else 0)
  }

  /** ~x in a word of w bits. */
  function Not(w: nat, x: nat): nat
    requires x < Pow2(w)
  {
    Pow2(w) - 1 - x
  }

  lemma {:induction false} Pow2Add(m: nat, n: nat)
    ensures Pow2(m + n) == Pow2(m) * Pow2(n)
  {
    if m > 0 {
      Pow2Add(m - 1, n);
      assert Pow2(m + n) == 2 * Pow2(m - 1 + n);
      assert 2 * (Pow2(m - 1) * Pow2(n)) == (2 * Pow2(m - 1)) * Pow2(n);
    }
  }

  // ---------- one bit at a time ----------

  lemma AndBit(x: nat, y: nat)
    ensures And(x, y) / 2 == And(x / 2, y / 2)
    ensures And(x, y) % 2 == if x % 2 == 1 && y % 2 == 1 then 1 else 0
  {
  }

  lemma OrBit(x: nat, y: nat)
    ensures Or(x, y) / 2 == Or(x / 2, y / 2)
    ensures Or(x, y) % 2 == if x % 2 == 1 || y % 2 == 1 then 1 else 0
  {
  }

  lemma XorBit(x: nat, y: nat)
    ensures Xor(x, y) / 2 == Xor(x / 2, y / 2)
    ensures Xor(x, y) % 2 == if x % 2 != y % 2 then 1 else 0
  {
  }

  // ---------- a word in two halves ----------

  /** x >> k. */
  function High(x: nat, k: nat): nat
    decreases k
  {
    if k == 0 then x else High(x / 2, k - 1)
  }

  /** The low k bits of x. */
  function Low(x: nat, k: nat): nat
    decreases k
  {
    if k == 0 then 0 else 2 * Low(x / 2, k - 1) + x % 2
  }

  lemma {:induction false} HighLow(x: nat, k: nat)
    ensures x == High(x, k) * Pow2(k) + Low(x, k) && Low(x, k) < Pow2(k)
  {
    if k > 0 {
      HighLow(x / 2, k - 1);
      Twice(High(x, k), k);
    }
  }

  lemma Twice(n: nat, k: nat)
    requires k > 0
    ensures n * Pow2(k) == 2 * (n * Pow2(k - 1))
  {
    var p := Pow2(k - 1);
    assert n * (2 * p) == 2 * (n * p);
  }

  lemma MulLess(c: nat, a: nat, p: nat)
    requires c < a
    ensures c * p + p <= a * p
    decreases a
  {
    assert (a - 1) * p + p == a * p;
    if c < a - 1 {
      MulLess(c, a - 1, p);
    }
  }

  /** Division with remainder has one answer. */
  lemma DivisionUnique(p: nat, a: nat, b: nat, c: nat, d: nat)
    requires b < p && d < p && a * p + b == c * p + d
    ensures a == c && b == d
  {
    if a < c {
      MulLess(a, c, p);
    } else if c < a {
      MulLess(c, a, p);
    }
  }

  lemma Division(x: nat, p: nat, a: nat, b: nat)
    requires p > 0 && b < p && x == a * p + b
    ensures x / p == a && x % p == b
  {
    Euclid(x, p);
    DivisionUnique(p, a, b, x / p, x % p);
  }

  lemma Euclid(x: nat, p: nat)
    requires p > 0
    ensures x == (x / p) * p + x % p
  {
  }

  lemma HighLowAre(x: nat, k: nat)
    ensures High(x, k) == x / Pow2(k) && Low(x, k) == x % Pow2(k)
  {
    HighLow(x, k);
    Division(x, Pow2(k), High(x, k), Low(x, k));
  }

  lemma {:induction false} AndHigh(x: nat, y: nat, k: nat)
    ensures High(And(x, y), k) == And(High(x, k), High(y, k))
    decreases k
  {
    if k > 0 {
      AndHigh(x / 2, y / 2, k - 1);
      AndBit(x, y);
    }
  }

  lemma {:induction false} AndLow(x: nat, y: nat, k: nat)
    ensures Low(And(x, y), k) == And(Low(x, k), Low(y, k))
    decreases k
  {
    if k > 0 {
      AndLow(x / 2, y / 2, k - 1);
      AndBit(x, y);
      var a, b := Low(x, k), Low(y, k);
      assert a / 2 == Low(x / 2, k - 1) && b / 2 == Low(y / 2, k - 1);
      AndBit(a, b);
    }
  }

  lemma {:induction false} XorHigh(x: nat, y: nat, k: nat)
    ensures High(Xor(x, y), k) == Xor(High(x, k), High(y, k))
    decreases k
  {
    if k > 0 {
      XorHigh(x / 2, y / 2, k - 1);
      XorBit(x, y);
    }
  }

  lemma {:induction false} XorLow(x: nat, y: nat, k: nat)
    ensures Low(Xor(x, y), k) == Xor(Low(x, k), Low(y, k))
    decreases k
  {
    if k > 0 {
      XorLow(x / 2, y / 2, k - 1);
      XorBit(x, y);
      var a, b := Low(x, k), Low(y, k);
      assert a / 2 == Low(x / 2, k - 1) && b / 2 == Low(y / 2, k - 1);
      XorBit(a, b);
    }
  }

  lemma {:induction false} AndCommutes(x: nat, y: nat)
    ensures And(x, y) == And(y, x)
  {
    AndBit(x, y);
    AndBit(y, x);
    if x > 0 && y > 0 {
      AndCommutes(x / 2, y / 2);
    }
  }

  lemma {:induction false} AndFull(w: nat, x: nat)
    requires x < Pow2(w)
    ensures And(x, Pow2(w) - 1) == x
  {
    if w > 0 {
      AndFull(w - 1, x / 2);
      AndBit(x, Pow2(w) - 1);
    }
  }

  lemma {:induction false} AndComplement(w: nat, x: nat)
    requires x < Pow2(w)
    ensures And(x, Not(w, x)) == 0
  {
    if w > 0 {
      AndComplement(w - 1, x / 2);
      AndBit(x, Not(w, x));
      assert Not(w, x) / 2 == Not(w - 1, x / 2);
    }
  }

  lemma {:induction false} XorBound(w: nat, x: nat, y: nat)
    requires x < Pow2(w) && y < Pow2(w)
    ensures Xor(x, y) < Pow2(w)
  {
    if w > 0 {
      XorBound(w - 1, x / 2, y / 2);
      XorBit(x, y);
    }
  }

  lemma {:induction false} XorZeroIff(x: nat, y: nat)
    ensures Xor(x, y) == 0 <==> x == y
    decreases x + y
  {
    if x > 0 && y > 0 {
      XorZeroIff(x / 2, y / 2);
      XorBit(x, y);
    }
  }

  lemma {:induction false} AndOverOr(w: nat, p: nat, q: nat)
    ensures And(w, Or(p, q)) == Or(And(w, p), And(w, q))
    decreases w
  {
    if w > 0 {
      AndOverOr(w / 2, p / 2, q / 2);
      OrBit(p, q);
      AndBit(w, Or(p, q));
      AndBit(w, p);
      AndBit(w, q);
      OrBit(And(w, p), And(w, q));
    }
  }

  // ---------- masks ----------

  /** x & ~(2^k - 1) is x rounded down to a multiple of 2^k, in words of any width. */
  lemma MaskIsFloor(w: nat, k: nat, x: nat)
    requires k <= w && x < Pow2(w)
    ensures Pow2(k) <= Pow2(w)
    ensures And(x, Not(w, Pow2(k) - 1)) == x - x % Pow2(k)
  {
    MaskClearsLow(w, k, x);
    HighLowAre(x, k);
  }

  lemma {:induction false} MaskClearsLow(w: nat, k: nat, x: nat)
    requires k <= w && x < Pow2(w)
    ensures Pow2(k) <= Pow2(w)
    ensures And(x, Pow2(w) - Pow2(k)) == x - Low(x, k)
  {
    if k == 0 {
      AndFull(w, x);
    } else {
      MaskClearsLow(w - 1, k - 1, x / 2);
      AndBit(x, Pow2(w) - Pow2(k));
    }
  }

  lemma HighLowUnique(x: nat, k: nat, a: nat, b: nat)
    requires b < Pow2(k) && x == a * Pow2(k) + b
    ensures High(x, k) == a && Low(x, k) == b
  {
    HighLow(x, k);
    DivisionUnique(Pow2(k), High(x, k), Low(x, k), a, b);
  }

  /** A number below 2^k has nothing above bit k. */
  lemma HighOfSmall(x: nat, k: nat)
    requires x < Pow2(k)
    ensures High(x, k) == 0 && Low(x, k) == x
  {
    HighLowUnique(x, k, 0, x);
  }

  lemma ComplementHalves(q: nat, a: nat, p: nat)
    requires a < q && p > 0
    ensures a * p <= q * p - 1 && q * p - 1 - a * p == (q - 1 - a) * p + (p - 1)
  {
    MulLess(a, q, p);
  }

  /** x & ~(h << k), where h is x >> k, is what x has below bit k. */
  lemma HighCleared(m: nat, k: nat, x: nat)
    requires High(x, k) < Pow2(m)
    ensures High(x, k) * Pow2(k) < Pow2(m + k)
    ensures And(x, Not(m + k, High(x, k) * Pow2(k))) == Low(x, k)
  {
    var h, p, q := High(x, k), Pow2(k), Pow2(m);
    Pow2Add(m, k);
    ComplementHalves(q, h, p);
    var n := Not(m + k, h * p);
    HighLowUnique(n, k, q - 1 - h, p - 1);
    AndHigh(x, n, k);
    AndLow(x, n, k);
    AndComplement(m, h);
    HighLow(x, k);
    AndFull(k, Low(x, k));
    HighLow(And(x, n), k);
  }

  /** Folding bits `fold` into the low half of x, and clearing the high half. */
  lemma FoldHigh(m: nat, k: nat, x: nat, fold: nat)
    requires High(x, k) < Pow2(m) && fold < Pow2(k)
    ensures High(x, k) * Pow2(k) < Pow2(m + k)
    ensures And(Xor(x, fold), Not(m + k, High(x, k) * Pow2(k))) == Xor(Low(x, k), fold)
    ensures Xor(Low(x, k), fold) < Pow2(k)
  {
    HighLow(x, k);
    HighLowUnique(fold, k, 0, fold);
    XorHigh(x, fold, k);
    XorLow(x, fold, k);
    HighCleared(m, k, Xor(x, fold));
    XorBound(k, Low(x, k), fold);
  }

  /** Skipping the fold when there is nothing to fold changes nothing. */
  lemma FoldUnlessZero(m: nat, k: nat, x: nat, fold: nat, g: nat)
    requires High(x, k) < Pow2(m) && fold < Pow2(k) && g == High(x, k) * Pow2(k)
    requires g == 0 ==> fold == 0
    ensures g < Pow2(m + k)
    ensures And(if g != 0 then Xor(x, fold) else x, Pow2(m + k) - 1 - g) == Xor(Low(x, k), fold) < Pow2(k)
  {
    FoldHigh(m, k, x, fold);
    XorZero(x);
  }

  lemma XorZero(x: nat)
    ensures Xor(x, 0) == x
  {
  }

  lemma {:induction false} AndLe(x: nat, y: nat)
    ensures And(x, y) <= y
  {
    if x > 0 && y > 0 {
      AndLe(x / 2, y / 2);
    }
  }

  lemma Pow2Values()
    ensures Pow2(4) == 0x10 && Pow2(8) == 0x100 && Pow2(16) == 0x1_0000
    ensures Pow2(24) == 0x100_0000 && Pow2(28) == 0x1000_0000 && Pow2(32) == 0x1_0000_0000
  {
    assert Pow2(2) == 4;
    Pow2Add(2, 2);
    Pow2Add(4, 4);
    Pow2Add(8, 8);
    Pow2Add(16, 8);
    Pow2Add(24, 4);
    Pow2Add(16, 16);
  }

  lemma {:induction false} Pow2Mono(m: nat, n: nat)
    requires m <= n
    ensures Pow2(m) <= Pow2(n)
    decreases n - m
  {
    if m < n {
      Pow2Mono(m + 1, n);
    }
  }

  /** x & (2^k - 1) keeps the low k bits. */
  lemma {:induction false} LowIsMask(x: nat, k: nat)
    ensures And(x, Pow2(k) - 1) == Low(x, k)
    decreases k
  {
    if k > 0 {
      LowIsMask(x / 2, k - 1);
      AndBit(x, Pow2(k) - 1);
    }
  }
}
