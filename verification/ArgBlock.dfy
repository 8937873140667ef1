/**
 The block of arguments the kernel leaves on the stack of a new program, and the scan that finds in
 it where the program's entry address is kept.
 */
module ArgBlock {
  import opened Bytes

  const AT_NULL := 0
  const AT_ENTRY := 9
  const INT_BYTES := 4

  datatype Aux = Aux(kind: nat, value: nat)

  predicate IsWordSize(w: nat) {
    w == 4 || w == 8
  }

  /** The address of the i-th word from `base` on. */
  function Slot(w: nat, base: nat, i: nat): nat {
    if w == 8 then base + 8 * i else base + 4 * i
  }

  function WordAt(mem: seq<Byte>, p: nat, w: nat): nat
    requires p + w <= |mem|
  {
    Decode(mem[p..p + w])
  }

  function Envp(w: nat, sp: nat, argc: nat): nat {
    Slot(w, sp, argc + 2)
  }

  function Auxv(w: nat, sp: nat, argc: nat, envc: nat): nat {
    Slot(w, Envp(w, sp, argc), envc + 1)
  }

  predicate EnvAt(mem: seq<Byte>, envp: nat, w: nat, envc: nat)
    requires IsWordSize(w)
  {
    && Slot(w, envp, envc + 1) <= |mem|
    && (forall i: nat :: i < envc ==> WordAt(mem, Slot(w, envp, i), w) != 0)
    && WordAt(mem, Slot(w, envp, envc), w) == 0
  }

  predicate EntryAt(mem: seq<Byte>, p: nat, w: nat, a: Aux) {
    p + 2 * w <= |mem| && a.kind != AT_NULL && WordAt(mem, p, w) == a.kind && WordAt(mem, p + w, w) == a.value
  }

  predicate AuxAt(mem: seq<Byte>, auxv: nat, w: nat, aux: seq<Aux>)
    requires IsWordSize(w)
  {
    && Slot(w, auxv, 2 * |aux| + 2) <= |mem|
    && (forall k: nat :: k < |aux| ==> EntryAt(mem, Slot(w, auxv, 2 * k), w, aux[k]))
    && WordAt(mem, Slot(w, auxv, 2 * |aux|), w) == AT_NULL
  }

  /** What the kernel puts at the initial stack pointer (section 3.4.1 of the System V AMD64 ABI):
      the argument count, the arguments and a null word, the environment and a null word, and the
      auxiliary vector up to an entry of kind AT_NULL. */
  predicate Block(mem: seq<Byte>, sp: nat, w: nat, argc: nat, envc: nat, aux: seq<Aux>)
    requires IsWordSize(w)
  {
    && argc < 0x8000_0000
    && sp + INT_BYTES <= |mem| && Decode(mem[sp..sp + INT_BYTES]) == argc
    && EnvAt(mem, Envp(w, sp, argc), w, envc)
    && AuxAt(mem, Auxv(w, sp, argc, envc), w, aux)
  }

  /** The first entry from the k-th on that names the program's entry address, or |aux|. */
  function FirstEntryFrom(aux: seq<Aux>, k: nat): (n: nat)
    requires k <= |aux|
    ensures k <= n <= |aux| && (n < |aux| ==> aux[n].kind == AT_ENTRY)
    ensures forall j :: k <= j < n ==> aux[j].kind != AT_ENTRY
    decreases |aux| - k
  {
    if k == |aux| || aux[k].kind == AT_ENTRY then k else FirstEntryFrom(aux, k + 1)
  }

  function FirstEntry(aux: seq<Aux>): nat {
    FirstEntryFrom(aux, 0)
  }

  method ReadWord(mem: array<Byte>, p: nat, n: nat) returns (value: nat)
    requires p + n <= mem.Length
    ensures value == WordAt(mem[..], p, n)
  {
    assert mem[p..p + n] == mem[..][p..p + n];
    value := Decode(mem[p..p + n]);
  }

  method FindAuxv(mem: array<Byte>, sp: nat, w: nat, ghost argc: nat, ghost envc: nat, ghost aux: seq<Aux>)
    returns (auxv: nat)
    requires IsWordSize(w) && Block(mem[..], sp, w, argc, envc, aux)
    ensures auxv == Auxv(w, sp, argc, envc)
  {
    var count := ReadWord(mem, sp, INT_BYTES);
    var argv := sp + w;
    var p := Slot(w, argv, count + 1);
    ghost var envp := Envp(w, sp, argc);
    ghost var i: nat := 0;
    var value := ReadWord(mem, p, w);
    while value != 0
      invariant i <= envc && p == Slot(w, envp, i) && value == WordAt(mem[..], p, w)
      decreases envc - i
    {
      p := p + w;
      i := i + 1;
      value := ReadWord(mem, p, w);
    }
    auxv := p + w;
  }

  /** The entry at `v`, the k-th, or behind the last one its end. */
  method ReadAux(mem: array<Byte>, v: nat, auxv: nat, w: nat, ghost aux: seq<Aux>, ghost k: nat) returns (buf: Aux)
    requires IsWordSize(w) && AuxAt(mem[..], auxv, w, aux) && k <= |aux| && v == Slot(w, auxv, 2 * k)
    ensures buf.kind == AT_NULL <==> k == |aux|
    ensures k < |aux| ==> buf == aux[k]
  {
    if k < |aux| {
      assert EntryAt(mem[..], Slot(w, auxv, 2 * k), w, aux[k]);
    }
    var kind := ReadWord(mem, v, w);
    var value := ReadWord(mem, v + w, w);
    buf := Aux(kind, value);
  }

  /** The scan of an auxiliary vector. */
  method ScanAuxv(mem: array<Byte>, auxv: nat, w: nat, ghost aux: seq<Aux>) returns (entry: nat, at: nat)
    requires IsWordSize(w) && AuxAt(mem[..], auxv, w, aux)
    ensures var k := FirstEntry(aux);
            if k < |aux| then entry == aux[k].value && at == Slot(w, auxv, 2 * k) + w else entry == 0 && at == 0
  {
    var v := auxv;
    ghost var k: nat := 0;
    var buf := ReadAux(mem, v, auxv, w, aux, k);
    while buf.kind != AT_NULL
      invariant k <= |aux| && v == Slot(w, auxv, 2 * k)
      invariant buf.kind == AT_NULL <==> k == |aux|
      invariant k < |aux| ==> buf == aux[k]
      invariant FirstEntryFrom(aux, k) == FirstEntry(aux)
      decreases |aux| - k
    {
      if buf.kind == AT_ENTRY {
        return buf.value, v + w;
      }
      v := v + 2 * w;
      k := k + 1;
      buf := ReadAux(mem, v, auxv, w, aux, k);
    }
    return 0, 0;
  }

  method FindEntry(mem: array<Byte>, sp: nat, w: nat, ghost argc: nat, ghost envc: nat, ghost aux: seq<Aux>)
    returns (entry: nat, at: nat)
    requires IsWordSize(w) && Block(mem[..], sp, w, argc, envc, aux)
    ensures var k := FirstEntry(aux);
            if k < |aux| then entry == aux[k].value && at == Slot(w, Auxv(w, sp, argc, envc), 2 * k) + w
            else entry == 0 && at == 0
  {
    var auxv := FindAuxv(mem, sp, w, argc, envc, aux);
    entry, at := ScanAuxv(mem, auxv, w, aux);
  }

  /** The word found lies in the block, above the initial stack pointer, and holds the address. */
  lemma EntryIsInBlock(mem: seq<Byte>, sp: nat, w: nat, argc: nat, envc: nat, aux: seq<Aux>)
    requires IsWordSize(w) && Block(mem, sp, w, argc, envc, aux) && FirstEntry(aux) < |aux|
    ensures var k := FirstEntry(aux);
            var at := Slot(w, Auxv(w, sp, argc, envc), 2 * k) + w;
            && sp + w <= at && at + w <= |mem| && WordAt(mem, at, w) == aux[k].value
            && WordAt(mem, at - w, w) == AT_ENTRY
  {
    var k := FirstEntry(aux);
    assert EntryAt(mem, Slot(w, Auxv(w, sp, argc, envc), 2 * k), w, aux[k]);
  }
}
