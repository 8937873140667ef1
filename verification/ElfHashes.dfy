/** The two symbol hashes of an ELF image, on 32-bit words. */
module ElfHashes {
  import opened Bits
  import opened Bytes

  type Name = seq<Byte>

  const WORD: nat := 0x1_0000_0000

  // ---------- GNU hash ----------

  function Pow33(n: nat): nat {
    if n == 0 then 1 else 33 * Pow33(n - 1)
  }

  /** name[0] * 33^(n-1) + ... + name[n-1] * 33^0. */
  function Digits(name: Name): nat {
    if name == [] then 0 else name[0] * Pow33(|name| - 1) + Digits(name[1..])
  }

  /** The base-33 polynomial of the name with leading coefficient 5381, in 32 bits. */
  function GnuHash(name: Name): (h: nat)
    ensures h < WORD
  {
    (5381 * Pow33(|name|) + Digits(name)) % WORD
  }

  lemma {:induction false} DigitsAppend(name: Name, c: Byte)
    ensures Digits(name + [c]) == 33 * Digits(name) + c
  {
    if name == [] {
      assert (name + [c])[1..] == [];
      assert Pow33(0) == 1;
    } else {
      assert (name + [c])[1..] == name[1..] + [c];
      DigitsAppend(name[1..], c);
      var p := Pow33(|name| - 1);
      assert Pow33(|name|) == 33 * p;
      assert name[0] * (33 * p) == 33 * (name[0] * p);
    }
  }

  lemma WrapStep(x: nat, h: nat, c: Byte)
    requires h == x % WORD
    ensures (((h * 32) % WORD + h) % WORD + c) % WORD == (33 * x + c) % WORD
  {
    var q := x / WORD;
    assert x == q * WORD + h;
    assert (33 * x + c) == (33 * q) * WORD + (33 * h + c);
    Shift(33 * h + c, 33 * q);
    var a := (h * 32) / WORD;
    var w := (h * 32) % WORD;
    assert h * 32 == a * WORD + w;
    var b := (w + h) / WORD;
    var v := (w + h) % WORD;
    assert w + h == b * WORD + v;
    assert 33 * h + c == (a + b) * WORD + (v + c);
    Shift(v + c, a + b);
  }

  lemma Shift(r: nat, q: nat)
    ensures (q * WORD + r) % WORD == r % WORD
  {
    var d, m := r / WORD, r % WORD;
    assert q * WORD + r == (q + d) * WORD + m;
  }

  method CalculateGnuHash(name: Name) returns (h: nat)
    ensures h == GnuHash(name)
  {
    h := 5381;
    for n := 0 to |name|
      invariant h == GnuHash(name[..n])
    {
      assert name[..n + 1] == name[..n] + [name[n]];
      DigitsAppend(name[..n], name[n]);
      ghost var x := 5381 * Pow33(n) + Digits(name[..n]);
      assert Pow33(n + 1) == 33 * Pow33(n);
      assert 5381 * Pow33(n + 1) + Digits(name[..n + 1]) == 33 * x + name[n];
      WrapStep(x, h, name[n]);
      h := (((h * 32) % WORD + h) % WORD + name[n]) % WORD;
    }
    assert name[..|name|] == name;
  }

  // ---------- System V hash ----------

  const TOP: nat := 0xf000_0000

  /** One round of the System V gABI, chapter 5, "Hash Table". */
  function SysvRound(h: nat, c: Byte): nat {
    SysvFold(((h * 16) % WORD + c) % WORD)
  }

  /** The top four bits of the sum are folded back in and cleared. */
  function SysvFold(sum: nat): nat {
    AndLe(sum, TOP);
    FoldWith(sum, And(sum, TOP), And(sum, TOP) / 0x100_0000)
  }

  function FoldWith(sum: nat, g: nat, shifted: nat): nat
    requires g < WORD
  {
    And(if g != 0 then Xor(sum, shifted) else sum, WORD - 1 - g)
  }

  function SysvHash(name: Name): nat {
    if name == [] then 0
    else SysvRound(SysvHash(name[..|name| - 1]), name[|name| - 1])
  }

  /** The top four bits of a word, in place and shifted down by 24. */
  lemma TopBits(sum: nat)
    requires sum < WORD
    ensures High(sum, 28) < 16 && And(sum, TOP) == High(sum, 28) * 0x1000_0000
    ensures And(sum, TOP) / 0x100_0000 == High(sum, 28) * 16
  {
    Pow2Values();
    MaskClearsLow(32, 28, sum);
    HighLow(sum, 28);
  }

  lemma FoldWithIs(m: nat, k: nat, sum: nat, g: nat, shifted: nat)
    requires Pow2(m + k) == WORD && High(sum, k) < Pow2(m) && shifted < Pow2(k) && g == High(sum, k) * Pow2(k)
    requires g == 0 ==> shifted == 0
    ensures g < WORD && FoldWith(sum, g, shifted) == Xor(Low(sum, k), shifted) < Pow2(k)
  {
    FoldUnlessZero(m, k, sum, shifted, g);
  }

  /** Folding is an exclusive or of the low 28 bits with the top four, at bit 4. */
  lemma SysvFoldIs(sum: nat)
    requires sum < WORD
    ensures SysvFold(sum) == Xor(Low(sum, 28), High(sum, 28) * 16) < 0x1000_0000
  {
    TopBits(sum);
    Pow2Values();
    FoldWithIs(4, 28, sum, And(sum, TOP), And(sum, TOP) / 0x100_0000);
  }

  lemma SysvRoundBelow(h: nat, c: Byte)
    ensures SysvRound(h, c) < 0x1000_0000
  {
    SysvFoldIs(((h * 16) % WORD + c) % WORD);
  }

  /** The hash of every name stays below 2^28. */
  lemma SysvHashBelow(name: Name)
    ensures SysvHash(name) < 0x1000_0000
  {
    if name != [] {
      SysvRoundBelow(SysvHash(name[..|name| - 1]), name[|name| - 1]);
    }
  }

  /** name[0] * 16^(n-1) + ... + name[n-1]. */
  function Base16(name: Name): nat {
    if name == [] then 0 else 16 * Base16(name[..|name| - 1]) + name[|name| - 1]
  }

  lemma NothingAbove(sum: nat, k: nat, folded: nat)
    requires sum < Pow2(k) && folded == Xor(Low(sum, k), High(sum, k) * 16)
    ensures folded == sum
  {
    HighOfSmall(sum, k);
    XorZero(sum);
  }

  lemma NothingToFold(sum: nat)
    requires sum < 0x1000_0000
    ensures SysvFold(sum) == sum
  {
    SysvFoldIs(sum);
    Pow2Values();
    NothingAbove(sum, 28, SysvFold(sum));
  }

  lemma SmallRound(h: nat, c: Byte)
    requires 16 * h + c < 0x1000_0000
    ensures SysvRound(h, c) == 16 * h + c
  {
    NoWrap(h, c);
    NothingToFold(16 * h + c);
  }

  lemma NoWrap(h: nat, c: Byte)
    requires 16 * h + c < WORD
    ensures ((h * 16) % WORD + c) % WORD == 16 * h + c
  {
  }

  /** The hash of a name is its base-16 polynomial exactly as long as that has no more than 28 bits. */
  lemma {:induction false} SysvIsPolynomialExactly(name: Name)
    ensures SysvHash(name) == Base16(name) <==> Base16(name) < 0x1000_0000
  {
    SysvHashBelow(name);
    if name != [] && Base16(name) < 0x1000_0000 {
      var front := name[..|name| - 1];
      SysvIsPolynomialExactly(front);
      SmallRound(Base16(front), name[|name| - 1]);
    }
  }

  /** The body of the loop; `g` is the variable the source keeps beside `h`. */
  method HashByte(h: nat, c: Byte) returns (h': nat, g: nat)
    ensures h' == SysvRound(h, c)
  {
    h' := ((h * 16) % WORD + c) % WORD;
    g := And(h', TOP);
    AndLe(h', TOP);
    if g != 0 {
      h' := Xor(h', g / 0x100_0000);
    }
    h' := And(h', WORD - 1 - g);
  }

  method CalculateSysvHash(name: Name) returns (h: nat)
    ensures h == SysvHash(name)
  {
    h := 0;
    var g := 0;
    for n := 0 to |name|
      invariant h == SysvHash(name[..n])
    {
      assert name[..n + 1][..n] == name[..n];
      h, g := HashByte(h, name[n]);
    }
    assert name[..|name|] == name;
  }
}
