/**
 Symbol lookup in one mapped ELF image: the GNU hash table, the System V hash table, and the scan
 of .symtab behind a lazily built cache. A symbol carries the name its string-table offset leads to.
 */
module ElfParser {
  import opened Bits
  import opened ElfHashes

  datatype SymbolType = NoType | Object | Func | OtherType

  datatype Symbol = Symbol(name: Name, value: nat, symbolType: SymbolType, size: nat)

  /** .gnu.hash; `bits` is the width of a Bloom word. */
  datatype GnuTable = GnuTable(bits: nat, symindx: nat, bloom: seq<nat>, shift2: nat, bucket: seq<nat>, chain: seq<nat>)

  /** .hash */
  datatype SysvTable = SysvTable(bucket: seq<nat>, chain: seq<nat>)

  datatype Option<T> = None | Some(value: T)

  // ---------- the GNU table ----------

  function BloomWord(t: GnuTable, hash: nat): nat
    requires t.bits > 0 && |t.bloom| > 0
  {
    t.bloom[(hash / t.bits) % |t.bloom|]
  }

  predicate HasBit(word: nat, n: nat) {
    And(word, Pow2(n)) == Pow2(n)
  }

  /** What the linker guarantees of .gnu.hash, for a hash function h and the bucket g that goes with
      it: the hashed symbols are the tail of .dynsym from `symindx` on, grouped by bucket; a bucket
      names the first of its group, or something below `symindx`; a chain word is the hash of its
      symbol, with the lowest bit telling the last of a group; and the two Bloom bits of every
      hashed symbol are set. */
  ghost predicate GnuWellFormed(t: GnuTable, syms: seq<Symbol>, h: Name -> nat) {
    && t.bits > 0 && |t.bloom| > 0 && |t.bucket| > 0 && t.symindx <= |syms| && |t.chain| == |syms| - t.symindx
    && Grouped(t, syms, BucketBy(h, |t.bucket|))
    && forall i :: t.symindx <= i < |syms| ==>
         && t.chain[i - t.symindx] / 2 == h(syms[i].name) / 2
         && BloomFits(t, h(syms[i].name))
  }

  function BucketBy(h: Name -> nat, n: nat): Name -> nat
    requires n > 0
  {
    (name: Name) => h(name) % n
  }

  ghost predicate Grouped(t: GnuTable, syms: seq<Symbol>, g: Name -> nat) {
    && t.symindx <= |syms| && |t.chain| == |syms| - t.symindx
    && (forall i, j :: t.symindx <= i <= j < |syms| ==> g(syms[i].name) <= g(syms[j].name))
    && (forall b :: 0 <= b < |t.bucket| && t.bucket[b] >= t.symindx ==> t.bucket[b] < |syms| && g(syms[t.bucket[b]].name) == b)
    && (forall i :: t.symindx <= i < |syms| ==> g(syms[i].name) < |t.bucket| && t.symindx <= t.bucket[g(syms[i].name)] <= i)
    && forall i: nat :: t.symindx <= i < |syms| ==> MarksEnd(t, syms, g, i)
  }

  /** The lowest bit of a chain word is set exactly for the last symbol of a group. */
  predicate MarksEnd(t: GnuTable, syms: seq<Symbol>, g: Name -> nat, i: nat)
    requires t.symindx <= i < |syms| && |t.chain| == |syms| - t.symindx
  {
    t.chain[i - t.symindx] % 2 == 1 <==> i + 1 == |syms| || g(syms[i + 1].name) != g(syms[i].name)
  }

  ghost predicate BloomFits(t: GnuTable, hash: nat)
    requires t.bits > 0 && |t.bloom| > 0
  {
    var word := t.bloom[(hash / t.bits) % |t.bloom|];
    HasBit(word, hash % t.bits) && HasBit(word, (hash / Pow2(t.shift2)) % t.bits)
  }

  function BloomMask(t: GnuTable, hash: nat): nat
    requires t.bits > 0
  {
    Or(Pow2(hash % t.bits), Pow2((hash / Pow2(t.shift2)) % t.bits))
  }

  /** The value of the first symbol from `from` on with that name, 0 if there is none. */
  function FirstValue(syms: seq<Symbol>, from: nat, name: Name): nat
    requires from <= |syms|
    decreases |syms| - from
  {
    if from == |syms| then 0
    else if syms[from].name == name then syms[from].value
    else FirstValue(syms, from + 1, name)
  }

  lemma {:induction false} FirstValueSkips(syms: seq<Symbol>, from: nat, end: nat, name: Name)
    requires from <= end <= |syms|
    requires forall i :: from <= i < end ==> syms[i].name != name
    ensures FirstValue(syms, from, name) == FirstValue(syms, end, name)
    decreases end - from
  {
    if from < end {
      FirstValueSkips(syms, from + 1, end, name);
    }
  }

  /** The Bloom test never rejects a hash that has both of its bits. */
  lemma BloomPasses(t: GnuTable, hash: nat)
    requires t.bits > 0 && |t.bloom| > 0 && BloomFits(t, hash)
    ensures And(BloomWord(t, hash), BloomMask(t, hash)) == BloomMask(t, hash)
  {
    AndOverOr(BloomWord(t, hash), Pow2(hash % t.bits), Pow2((hash / Pow2(t.shift2)) % t.bits));
  }

  /** A name the Bloom test rejects is not among the hashed symbols. */
  lemma BloomRejects(t: GnuTable, syms: seq<Symbol>, h: Name -> nat, name: Name)
    requires GnuWellFormed(t, syms, h)
    requires And(BloomWord(t, h(name)), BloomMask(t, h(name))) != BloomMask(t, h(name))
    ensures FirstValue(syms, t.symindx, name) == 0
  {
    if BloomFits(t, h(name)) {
      BloomPasses(t, h(name));
    }
    FirstValueSkips(syms, t.symindx, |syms|, name);
  }

  /** An empty bucket has no symbols, any other starts with its first. */
  lemma BucketStart(t: GnuTable, syms: seq<Symbol>, g: Name -> nat, name: Name)
    requires Grouped(t, syms, g) && g(name) < |t.bucket|
    ensures var first := t.bucket[g(name)];
            if first < t.symindx then FirstValue(syms, t.symindx, name) == 0
            else first < |syms| && g(syms[first].name) == g(name)
                 && FirstValue(syms, t.symindx, name) == FirstValue(syms, first, name)
  {
    var first := t.bucket[g(name)];
    FirstValueSkips(syms, t.symindx, if first < t.symindx then |syms| else first, name);
  }

  /** The lowest bit of a chain word tells whether the group goes on. */
  lemma GroupStep(t: GnuTable, syms: seq<Symbol>, g: Name -> nat, name: Name, i: nat)
    requires Grouped(t, syms, g) && t.symindx <= i < |syms| && g(syms[i].name) == g(name)
    ensures if t.chain[i - t.symindx] % 2 == 1 then FirstValue(syms, i + 1, name) == 0
            else i + 1 < |syms| && g(syms[i + 1].name) == g(name)
    ensures syms[i].name != name ==> FirstValue(syms, i, name) == FirstValue(syms, i + 1, name)
  {
    assert MarksEnd(t, syms, g, i);
    if t.chain[i - t.symindx] % 2 == 1 {
      assert i + 1 < |syms| ==> g(syms[i].name) < g(syms[i + 1].name);
      FirstValueSkips(syms, i + 1, |syms|, name);
    }
  }

  /** The comparison of two words without their lowest bit, as the lookup writes it. */
  lemma TopBitsAgree(x: nat, y: nat)
    ensures Xor(x, y) / 2 == 0 <==> x / 2 == y / 2
  {
    XorBit(x, y);
    XorZeroIff(x / 2, y / 2);
  }

  /** The table of one symbol, whatever it is called and whatever the hash function: there are such
      tables. */
  lemma OneSymbolTable(h: Name -> nat, bits: nat, shift2: nat, none: Symbol, sym: Symbol)
    requires bits > 0
    ensures GnuWellFormed(GnuTable(bits, 1, [Pow2(bits) - 1], shift2, [1], [h(sym.name) / 2 * 2 + 1]), [none, sym], h)
  {
    var hash := h(sym.name);
    var t := GnuTable(bits, 1, [Pow2(bits) - 1], shift2, [1], [hash / 2 * 2 + 1]);
    OddHalf(hash / 2);
    OneGroup(t, [none, sym], BucketBy(h, 1));
    OneWordFits(t, hash);
  }

  lemma OneGroup(t: GnuTable, syms: seq<Symbol>, g: Name -> nat)
    requires |syms| == 2 && t.symindx == 1 && t.bucket == [1] && |t.chain| == 1 && t.chain[0] % 2 == 1
    requires forall name :: g(name) == 0
    ensures Grouped(t, syms, g)
  {
  }

  lemma OneWordFits(t: GnuTable, hash: nat)
    requires t.bits > 0 && t.bloom == [Pow2(t.bits) - 1]
    ensures BloomFits(t, hash)
  {
    var a, b := hash % t.bits, (hash / Pow2(t.shift2)) % t.bits;
    FullWord(t.bits, a);
    FullWord(t.bits, b);
    ModOne(hash / t.bits);
  }

  lemma ModOne(x: nat)
    ensures x % 1 == 0
  {
  }

  lemma FullWord(bits: nat, n: nat)
    requires n < bits
    ensures HasBit(Pow2(bits) - 1, n)
  {
    Pow2Mono(n + 1, bits);
    AndCommutes(Pow2(bits) - 1, Pow2(n));
    AndFull(bits, Pow2(n));
  }

  lemma OddHalf(k: nat)
    ensures (k * 2 + 1) / 2 == k && (k * 2 + 1) % 2 == 1
  {
  }

  // ---------- the System V table ----------

  function SysvBucketOf(t: SysvTable, name: Name): nat
    requires |t.bucket| > 0
  {
    SysvHash(name) % |t.bucket|
  }

  /** `path` is the zero-terminated chain from symbol n on. */
  ghost predicate IsChain(chain: seq<nat>, n: nat, path: seq<nat>)
    decreases |path|
  {
    if path == [] then n == 0
    else n != 0 && path[0] == n && n < |chain| && IsChain(chain, chain[n], path[1..])
  }

  /** What the System V gABI guarantees of .hash: every bucket starts a chain that ends, and the
      chain of a bucket holds every symbol that hashes to it. */
  ghost predicate SysvWellFormed(t: SysvTable, syms: seq<Symbol>, chains: seq<seq<nat>>) {
    && |t.bucket| > 0 && |t.chain| == |syms| && |chains| == |t.bucket|
    && (forall b :: 0 <= b < |t.bucket| ==> IsChain(t.chain, t.bucket[b], chains[b]))
    && (forall i :: 1 <= i < |syms| ==> i in chains[SysvBucketOf(t, syms[i].name)])
  }

  /** The value of the first symbol along the path with that name, 0 if there is none. */
  function FirstAlong(syms: seq<Symbol>, path: seq<nat>, name: Name): nat {
    if path == [] then 0
    else if path[0] < |syms| && syms[path[0]].name == name then syms[path[0]].value
    else FirstAlong(syms, path[1..], name)
  }

  lemma {:induction false} FirstAlongFinds(syms: seq<Symbol>, path: seq<nat>, name: Name)
    ensures (forall i :: i in path && i < |syms| ==> syms[i].name != name) ==> FirstAlong(syms, path, name) == 0
    ensures (exists i :: i in path && i < |syms| && syms[i].name == name) ==>
            exists i :: i in path && i < |syms| && syms[i].name == name && FirstAlong(syms, path, name) == syms[i].value
  {
    if path != [] {
      FirstAlongFinds(syms, path[1..], name);
      assert forall i :: i in path <==> i == path[0] || i in path[1..];
    }
  }

  /** Of several, the one that comes first along the path. */
  lemma {:induction false} FirstAlongIs(syms: seq<Symbol>, path: seq<nat>, name: Name, k: nat)
    requires k < |path| && path[k] < |syms| && syms[path[k]].name == name
    requires forall j :: 0 <= j < k ==> path[j] < |syms| && syms[path[j]].name != name
    ensures FirstAlong(syms, path, name) == syms[path[k]].value
  {
    if k > 0 {
      FirstAlongIs(syms, path[1..], name, k - 1);
    }
  }

  lemma {:induction false} ChainInRange(chain: seq<nat>, n: nat, path: seq<nat>)
    requires IsChain(chain, n, path)
    ensures forall i :: i in path ==> 1 <= i < |chain|
    decreases |path|
  {
    if path != [] {
      ChainInRange(chain, chain[n], path[1..]);
      assert forall i :: i in path <==> i == path[0] || i in path[1..];
    }
  }

  // ---------- the cache ----------

  predicate Cacheable(s: Symbol) {
    (s.symbolType == Func || s.symbolType == Object) && s.size > 0
  }

  /** The sized functions and objects by name, where the first of a name stays. */
  function FirstWins(symtab: seq<Symbol>): map<Name, Symbol> {
    if symtab == [] then map[]
    else
      var front := FirstWins(symtab[..|symtab| - 1]);
      var last := symtab[|symtab| - 1];
      if Cacheable(last) && last.name !in front then front[last.name := last] else front
  }

  /** A function or an object that has a size. */
  predicate IsSized(symtab: seq<Symbol>, i: int) {
    0 <= i < |symtab| && symtab[i].symbolType in {Func, Object} && symtab[i].size != 0
  }

  lemma {:induction false} FirstWinsIs(symtab: seq<Symbol>, name: Name)
    ensures name in FirstWins(symtab) <==> exists i :: IsSized(symtab, i) && symtab[i].name == name
    ensures name in FirstWins(symtab) ==>
            exists i :: IsSized(symtab, i) && symtab[i].name == name && FirstWins(symtab)[name] == symtab[i]
                        && forall j :: j < i && IsSized(symtab, j) ==> symtab[j].name != name
  {
    if symtab != [] {
      var front := symtab[..|symtab| - 1];
      FirstWinsIs(front, name);
      assert forall i :: 0 <= i < |front| ==> front[i] == symtab[i];
      var last := |symtab| - 1;
      if name !in FirstWins(front) && Cacheable(symtab[last]) && symtab[last].name == name {
        assert forall j :: 0 <= j < last ==> !(IsSized(front, j) && front[j].name == name);
      }
      assert forall i :: 0 <= i < last ==> (IsSized(front, i) <==> IsSized(symtab, i));
    }
  }

  // ---------- the image ----------

  class ElfImage {
    const dynsym: seq<Symbol>
    const gnu: Option<GnuTable>
    const sysv: Option<SysvTable>
    const symtab: Option<seq<Symbol>>
    var symbolCache: map<Name, Symbol>

    /** The chains of the System V table. */
    ghost const chains: seq<seq<nat>>

    ghost predicate Valid()
      reads this
    {
      && (gnu.Some? ==> GnuWellFormed(gnu.value, dynsym, GnuHash))
      && (sysv.Some? ==> SysvWellFormed(sysv.value, dynsym, chains))
      && (symbolCache == map[] || (symtab.Some? && symbolCache == FirstWins(symtab.value)))
    }

    constructor (dynsym: seq<Symbol>, gnu: Option<GnuTable>, sysv: Option<SysvTable>, symtab: Option<seq<Symbol>>,
                 ghost chains: seq<seq<nat>>)
      requires gnu.Some? ==> GnuWellFormed(gnu.value, dynsym, GnuHash)
      requires sysv.Some? ==> SysvWellFormed(sysv.value, dynsym, chains)
      ensures Valid() && symbolCache == map[]
      ensures this.dynsym == dynsym && this.gnu == gnu && this.sysv == sysv && this.symtab == symtab && this.chains == chains
    {
      this.dynsym, this.gnu, this.sysv, this.symtab, this.chains := dynsym, gnu, sysv, symtab, chains;
      symbolCache := map[];
    }

    function GnuValue(name: Name): nat
      reads this
      requires Valid()
    {
      if gnu.Some? then FirstValue(dynsym, gnu.value.symindx, name) else 0
    }

    ghost function SysvValue(name: Name): nat
      reads this
      requires Valid()
    {
      if sysv.Some? then FirstAlong(dynsym, chains[SysvBucketOf(sysv.value, name)], name) else 0
    }

    function ScanValue(name: Name): nat {
      if symtab.Some? && name in FirstWins(symtab.value) then FirstWins(symtab.value)[name].value else 0
    }

    method FindSymbolByGnuHash(name: Name, hash: nat) returns (value: nat)
      requires Valid() && hash == GnuHash(name)
      ensures value == GnuValue(name)
    {
      if gnu.None? {
        return 0;
      }
      value := LookUp(gnu.value, dynsym, name, hash, GnuHash);
    }

    /** The lookup proper, for whatever hash function the table was built with. */
    static method LookUp(t: GnuTable, syms: seq<Symbol>, name: Name, hash: nat, ghost h: Name -> nat) returns (value: nat)
      requires GnuWellFormed(t, syms, h) && hash == h(name)
      ensures value == FirstValue(syms, t.symindx, name)
    {
      ghost var g := BucketBy(h, |t.bucket|);
      var word := BloomWord(t, hash);
      var mask := Or(Pow2(hash % t.bits), Pow2((hash / Pow2(t.shift2)) % t.bits));
      if And(word, mask) != mask {
        BloomRejects(t, syms, h, name);
        return 0;
      }
      var symIndex := t.bucket[hash % |t.bucket|];
      BucketStart(t, syms, g, name);
      if symIndex < t.symindx {
        return 0;
      }
      value := WalkChain(t, syms, name, hash, symIndex, h, g);
    }

    static method WalkChain(t: GnuTable, syms: seq<Symbol>, name: Name, hash: nat, start: nat,
                            ghost h: Name -> nat, ghost g: Name -> nat)
      returns (value: nat)
      requires Grouped(t, syms, g) && t.symindx <= start < |syms| && g(syms[start].name) == g(name) && hash == h(name)
      requires forall i :: t.symindx <= i < |syms| ==> t.chain[i - t.symindx] / 2 == h(syms[i].name) / 2
      ensures value == FirstValue(syms, start, name)
    {
      var symIndex := start;
      while true
        invariant start <= symIndex < |syms| && g(syms[symIndex].name) == g(name)
        invariant FirstValue(syms, start, name) == FirstValue(syms, symIndex, name)
        decreases |syms| - symIndex
      {
        GroupStep(t, syms, g, name, symIndex);
        var chain := t.chain[symIndex - t.symindx];
        TopBitsAgree(chain, hash);
        if Xor(chain, hash) / 2 == 0 {
          var sym := syms[symIndex];
          if name == sym.name {
            return sym.value;
          }
        }
        symIndex := symIndex + 1;
        if chain % 2 == 1 {
          break;
        }
      }
      return 0;
    }

    method FindSymbolBySysvHash(name: Name, hash: nat) returns (value: nat)
      requires Valid() && hash == SysvHash(name)
      ensures value == SysvValue(name)
    {
      if sysv.None? {
        return 0;
      }
      var t := sysv.value;
      var n := t.bucket[hash % |t.bucket|];
      ghost var path := chains[SysvBucketOf(t, name)];
      while n != 0
        invariant IsChain(t.chain, n, path)
        invariant FirstAlong(dynsym, path, name) == SysvValue(name)
        decreases |path|
      {
        var sym := dynsym[n];
        if name == sym.name {
          return sym.value;
        }
        n := t.chain[n];
        path := path[1..];
      }
      return 0;
    }

    method BuildSymbolCache()
      requires Valid()
      modifies this`symbolCache
      ensures Valid()
      ensures symbolCache == if symtab.Some? then FirstWins(symtab.value) else old(symbolCache)
    {
      if symbolCache == map[] && symtab.Some? {
        var table := symtab.value;
        for i := 0 to |table|
          invariant symbolCache == FirstWins(table[..i])
        {
          assert table[..i + 1][..i] == table[..i];
          var sym := table[i];
          if (sym.symbolType == Func || sym.symbolType == Object) && sym.size > 0 {
            if sym.name !in symbolCache {
              symbolCache := symbolCache[sym.name := sym];
            }
          }
        }
        assert table[..|table|] == table;
      }
    }

    method FindSymbolByLinearScan(name: Name) returns (value: nat)
      requires Valid()
      modifies this`symbolCache
      ensures Valid() && value == ScanValue(name)
    {
      BuildSymbolCache();
      if name in symbolCache {
        return symbolCache[name].value;
      }
      return 0;
    }

    method FindSymbolOffset(name: Name, gnuHash: nat, sysvHash: nat) returns (offset: nat)
      requires Valid() && gnuHash == GnuHash(name) && sysvHash == SysvHash(name)
      modifies this`symbolCache
      ensures Valid()
      ensures offset == old(Offset(name))
      ensures GnuValue(name) > 0 ==> offset == GnuValue(name)
      ensures GnuValue(name) == 0 && SysvValue(name) > 0 ==> offset == SysvValue(name)
      ensures GnuValue(name) == 0 && SysvValue(name) == 0 ==> offset == ScanValue(name)
    {
      offset := FindSymbolByGnuHash(name, gnuHash);
      if offset > 0 {
        return;
      }
      offset := FindSymbolBySysvHash(name, sysvHash);
      if offset > 0 {
        return;
      }
      offset := FindSymbolByLinearScan(name);
    }

    /** The first of the three lookups that finds a nonzero value decides. */
    ghost function Offset(name: Name): nat
      reads this
      requires Valid()
    {
      if GnuValue(name) > 0 then GnuValue(name)
      else if SysvValue(name) > 0 then SysvValue(name)
      else ScanValue(name)
    }
  }

  // ---------- agreement with plain scans ----------

  ghost predicate Unique(syms: seq<Symbol>, from: nat) {
    forall i, j :: from <= i < j < |syms| ==> syms[i].name != syms[j].name
  }

  /** Symbol i is the first from `from` on with that name. */
  ghost predicate IsLowest(syms: seq<Symbol>, from: nat, name: Name, i: int) {
    from <= i < |syms| && syms[i].name == name && forall j :: from <= j < i ==> syms[j].name != name
  }

  /** The GNU lookup answers like a scan of the hashed symbols: it finds the lowest-indexed one. */
  lemma FirstValueIsLowest(syms: seq<Symbol>, from: nat, name: Name)
    requires from <= |syms|
    ensures (forall i :: from <= i < |syms| ==> syms[i].name != name) ==> FirstValue(syms, from, name) == 0
    ensures forall i :: IsLowest(syms, from, name, i) ==> FirstValue(syms, from, name) == syms[i].value
  {
    if forall i :: from <= i < |syms| ==> syms[i].name != name {
      FirstValueSkips(syms, from, |syms|, name);
    }
    forall i | IsLowest(syms, from, name, i)
      ensures FirstValue(syms, from, name) == syms[i].value
    {
      FirstValueSkips(syms, from, i, name);
    }
  }

  /** If the name occurs, some symbol is the first to carry it. */
  lemma {:induction false} SomeLowest(syms: seq<Symbol>, from: nat, name: Name, i: nat) returns (k: nat)
    requires from <= i < |syms| && syms[i].name == name
    ensures IsLowest(syms, from, name, k) && k <= i
    decreases i
  {
    k := i;
    if j :| from <= j < i && syms[j].name == name {
      k := SomeLowest(syms, from, name, j);
    }
  }

  /** With names unique, the System V lookup answers like a scan from symbol 1 on. */
  lemma SysvAgreesWithScan(t: SysvTable, syms: seq<Symbol>, chains: seq<seq<nat>>, name: Name)
    requires SysvWellFormed(t, syms, chains) && Unique(syms, 1) && 1 <= |syms|
    ensures FirstAlong(syms, chains[SysvBucketOf(t, name)], name) == FirstValue(syms, 1, name)
  {
    var b := SysvBucketOf(t, name);
    FirstAlongFinds(syms, chains[b], name);
    ChainInRange(t.chain, t.bucket[b], chains[b]);
    FirstValueIsLowest(syms, 1, name);
    if i :| 1 <= i < |syms| && syms[i].name == name {
      assert i in chains[b];
      assert IsLowest(syms, 1, name, i);
    }
  }

  ghost predicate HoldsNonzero(syms: seq<Symbol>, from: nat, name: Name) {
    exists i :: from <= i < |syms| && syms[i].name == name && syms[i].value != 0
  }

  ghost predicate ScanHoldsNonzero(symtab: seq<Symbol>, name: Name) {
    exists i :: IsSized(symtab, i) && symtab[i].name == name && symtab[i].value != 0
  }

  ghost predicate UniqueCacheable(symtab: seq<Symbol>) {
    forall i, j :: i < j && IsSized(symtab, i) && IsSized(symtab, j) ==> symtab[i].name != symtab[j].name
  }

  /** With names unique per table, the lookup fails exactly if no table holds the name with a
      nonzero value. */
  lemma OffsetZeroExactly(e: ElfImage, name: Name)
    requires e.Valid()
    requires e.gnu.Some? ==> Unique(e.dynsym, e.gnu.value.symindx)
    requires e.sysv.Some? ==> |e.dynsym| >= 1 && Unique(e.dynsym, 1)
    requires e.symtab.Some? ==> UniqueCacheable(e.symtab.value)
    ensures e.Offset(name) != 0 <==>
            || (e.gnu.Some? && HoldsNonzero(e.dynsym, e.gnu.value.symindx, name))
            || (e.sysv.Some? && HoldsNonzero(e.dynsym, 1, name))
            || (e.symtab.Some? && ScanHoldsNonzero(e.symtab.value, name))
  {
    if e.gnu.Some? {
      FirstValueNonzero(e.dynsym, e.gnu.value.symindx, name);
    }
    if e.sysv.Some? {
      SysvAgreesWithScan(e.sysv.value, e.dynsym, e.chains, name);
      FirstValueNonzero(e.dynsym, 1, name);
    }
    if e.symtab.Some? {
      FirstWinsIs(e.symtab.value, name);
    }
  }

  lemma FirstValueNonzero(syms: seq<Symbol>, from: nat, name: Name)
    requires from <= |syms| && Unique(syms, from)
    ensures FirstValue(syms, from, name) != 0 <==> HoldsNonzero(syms, from, name)
  {
    FirstValueIsLowest(syms, from, name);
    if i :| from <= i < |syms| && syms[i].name == name {
      assert IsLowest(syms, from, name, i);
    }
  }
}
