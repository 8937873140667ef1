/**
 Taking the records of a library out of the linker's list of loaded libraries. What the linker's own
 unload and free do to the list is a parameter; the assumptions about it are named predicates.
 */
module Solist {
  import opened Sequences

  type Addr = nat

  const NULL: Addr := 0

  datatype Path = NoPath | Path(text: string)

  datatype SoInfo = SoInfo(path: Path, base: nat, size: nat, constructorCalled: bool, next: Addr)

  type Memory = map<Addr, SoInfo>

  predicate Matches(r: SoInfo, needle: string) {
    r.path.Path? && Contains(r.path.text, needle) && r.size > 0
  }

  // ---------- the list ----------

  /** `chain` is what following `next` from `a` runs through until it ends. */
  predicate Linked(m: Memory, a: Addr, chain: seq<Addr>)
    decreases |chain|
  {
    if chain == [] then a == NULL
    else a != NULL && a == chain[0] && a in m && Linked(m, m[a].next, chain[1..])
  }

  ghost predicate IsList(m: Memory, head: Addr) {
    exists chain :: Linked(m, head, chain)
  }

  /** The records that can be reached from `head`, in order. */
  ghost function Chain(m: Memory, head: Addr): (chain: seq<Addr>)
    requires IsList(m, head)
    ensures Linked(m, head, chain)
  {
    var chain :| Linked(m, head, chain);
    chain
  }

  lemma {:induction false} OneChain(m: Memory, a: Addr, c: seq<Addr>, d: seq<Addr>)
    requires Linked(m, a, c) && Linked(m, a, d)
    ensures c == d
    decreases |c|
  {
    if c != [] {
      OneChain(m, m[a].next, c[1..], d[1..]);
      assert c == [a] + c[1..] && d == [a] + d[1..];
    }
  }

  lemma {:induction false} LinkedFrom(m: Memory, a: Addr, c: seq<Addr>, i: nat)
    requires Linked(m, a, c) && i < |c|
    ensures c[i] != NULL && c[i] in m && Linked(m, c[i], c[i..])
    decreases |c|
  {
    if i > 0 {
      LinkedFrom(m, m[a].next, c[1..], i - 1);
      assert c[1..][i - 1..] == c[i..];
    } else {
      assert c[0..] == c;
    }
  }

  /** A list that ends runs through no record twice. */
  lemma ChainIsDistinct(m: Memory, a: Addr, c: seq<Addr>, i: nat, j: nat)
    requires Linked(m, a, c) && i < j < |c|
    ensures c[i] != c[j]
  {
    LinkedFrom(m, a, c, i);
    LinkedFrom(m, a, c, j);
    if c[i] == c[j] {
      OneChain(m, c[i], c[i..], c[j..]);
    }
  }

  /** The memory has the same records with the same links. */
  predicate SameLinks(m: Memory, n: Memory) {
    m.Keys == n.Keys && forall a <- m :: m[a].next == n[a].next
  }

  lemma {:induction false} SameLinksLinked(m: Memory, n: Memory, a: Addr, c: seq<Addr>)
    requires SameLinks(m, n) && Linked(m, a, c)
    ensures Linked(n, a, c)
    decreases |c|
  {
    if c != [] {
      SameLinksLinked(m, n, m[a].next, c[1..]);
    }
  }

  lemma SameLinksChain(m: Memory, n: Memory, head: Addr)
    requires SameLinks(m, n) && IsList(m, head)
    ensures IsList(n, head) && Chain(n, head) == Chain(m, head)
  {
    SameLinksLinked(m, n, head, Chain(m, head));
    OneChain(n, head, Chain(n, head), Chain(m, head));
  }

  // ---------- what is assumed of the linker ----------

  /** What is left of the list after a reachable record was handed over is a list again. */
  ghost predicate KeepsList(release: (Memory, Addr) -> Memory, head: Addr) {
    forall m, a, c :: Linked(m, head, c) && a in c ==> IsList(release(m, a), head)
  }

  /** It links nothing in, and the records it leaves linked keep their path and size. */
  ghost predicate OnlyRemoves(release: (Memory, Addr) -> Memory, head: Addr) {
    forall m, a, c, d :: Linked(m, head, c) && a in c && Linked(release(m, a), head, d) ==> Survive(m, c, release(m, a), d)
  }

  /** The record it is handed is not linked any more, unless it is the head of the list: the first
      record is the linker's own, which stays. */
  ghost predicate Unlinks(release: (Memory, Addr) -> Memory, head: Addr) {
    forall m, a, c, d :: Linked(m, head, c) && a in c && a != head && Linked(release(m, a), head, d) ==> a !in d
  }

  predicate Survive(m: Memory, c: seq<Addr>, n: Memory, d: seq<Addr>) {
    forall b <- d :: b in c && b in m && b in n && n[b].path == m[b].path && n[b].size == m[b].size
  }

  datatype Linker = Linker(unload: (Memory, Addr) -> Memory, free: (Memory, Addr) -> Memory)

  function Chosen(linker: Linker, unload: bool): (Memory, Addr) -> Memory {
    if unload then linker.unload else linker.free
  }

  ghost predicate ListStaysList(linker: Linker, head: Addr) {
    KeepsList(linker.unload, head) && KeepsList(linker.free, head)
  }

  /** A linker that does all of this: it takes the record out of the chain of links, and out of
      memory. */
  function Splicer(head: Addr): (Memory, Addr) -> Memory {
    (m: Memory, a: Addr) => if a == head || a !in m then m else Spliced(m, a)
  }

  function Spliced(m: Memory, a: Addr): Memory
    requires a in m
  {
    map b | b in m && b != a :: if m[b].next == a then m[b].(next := m[a].next) else m[b]
  }

  function Without(c: seq<Addr>, a: Addr): (d: seq<Addr>)
    ensures a !in d && forall b <- d :: b in c
  {
    if c == [] then [] else (if c[0] == a then [] else [c[0]]) + Without(c[1..], a)
  }

  /** A chain that runs through a record once goes on without it. */
  lemma {:induction false} SplicedLinked(m: Memory, a: Addr, x: Addr, c: seq<Addr>)
    requires a in m && a != NULL && Linked(m, x, c)
    ensures Linked(Spliced(m, a), if x == a then m[a].next else x, Without(c, a))
    decreases |c|
  {
    if c != [] {
      SplicedLinked(m, a, m[x].next, c[1..]);
      if x == a {
        assert Without(c, a) == Without(c[1..], a);
      } else {
        assert Without(c, a) == [x] + Without(c[1..], a);
        assert ([x] + Without(c[1..], a))[1..] == Without(c[1..], a);
      }
    }
  }

  /** So the assumptions can all hold, with every record but the head really going. */
  lemma SplicerBehaves(head: Addr)
    requires head != NULL
    ensures KeepsList(Splicer(head), head) && OnlyRemoves(Splicer(head), head) && Unlinks(Splicer(head), head)
  {
    var release := Splicer(head);
    forall m, a, c | Linked(m, head, c) && a in c
      ensures Linked(release(m, a), head, if a == head then c else Without(c, a))
      ensures IsList(release(m, a), head)
    {
      ReachableIn(m, head, c, a);
      if a != head {
        SplicedLinked(m, a, head, c);
      }
    }
    forall m, a, c, d | Linked(m, head, c) && a in c && Linked(release(m, a), head, d)
      ensures Survive(m, c, release(m, a), d) && (a != head ==> a !in d)
    {
      ReachableIn(m, head, c, a);
      OneChain(release(m, a), head, d, if a == head then c else Without(c, a));
      forall b | b in d ensures b in c && b in m && b in release(m, a) {
        ReachableIn(m, head, c, b);
        ReachableIn(release(m, a), head, d, b);
      }
    }
  }

  lemma ReachableIn(m: Memory, head: Addr, c: seq<Addr>, a: Addr)
    requires Linked(m, head, c) && a in c
    ensures a in m && a != NULL
  {
    var i :| 0 <= i < |c| && c[i] == a;
    LinkedFrom(m, head, c, i);
  }

  // ---------- what dropping must do ----------

  /** Writes to a record; a block the linker no longer has is not written. */
  function WithSize(m: Memory, a: Addr, size: nat): (n: Memory)
    ensures SameLinks(m, n)
  {
    if a in m then m[a := m[a].(size := size)] else m
  }

  function WithConstructorCalled(m: Memory, a: Addr, called: bool): (n: Memory)
    ensures SameLinks(m, n)
  {
    if a in m then m[a := m[a].(constructorCalled := called)] else m
  }

  /** A record is handed to the linker in memory `before`. */
  datatype Call = Call(target: Addr, before: Memory, base: nat, size: nat)

  datatype Outcome = Outcome(memory: Memory, calls: seq<Call>)

  /** The memory a record is handed over in, and the memory afterwards. */
  function Prepared(m: Memory, t: Addr, unload: bool): (n: Memory)
    ensures SameLinks(m, n)
  {
    if unload then WithConstructorCalled(WithSize(m, t, 0), t, false) else WithSize(m, t, 0)
  }

  function Released(linker: Linker, m: Memory, t: Addr, unload: bool): Memory
    requires t in m
  {
    var p := Prepared(m, t, unload);
    if unload then WithConstructorCalled(linker.unload(p, t), t, true) else WithSize(linker.free(p, t), t, m[t].size)
  }

  /** A record the linker keeps counts as constructed again, or has its size back. */
  lemma ReleasedIs(linker: Linker, m: Memory, t: Addr, unload: bool)
    requires t in m && t in Released(linker, m, t, unload)
    ensures var r := Released(linker, m, t, unload)[t]; if unload then r.constructorCalled else r.size == m[t].size
  {
  }

  lemma ReleasedIsList(linker: Linker, head: Addr, m: Memory, t: Addr, unload: bool)
    requires IsList(m, head) && ListStaysList(linker, head) && t in Chain(m, head)
    ensures t in m && IsList(Released(linker, m, t, unload), head)
  {
    var c := Chain(m, head);
    var i :| 0 <= i < |c| && c[i] == t;
    LinkedFrom(m, head, c, i);
    var p := Prepared(m, t, unload);
    SameLinksChain(m, p, head);
    assert Linked(p, head, Chain(p, head)) && t in Chain(p, head);
    var q := if unload then linker.unload(p, t) else linker.free(p, t);
    assert IsList(q, head);
    SameLinksChain(q, Released(linker, m, t, unload), head);
  }

  /** The targets in turn: those still linked and not yet empty are handed to the linker. */
  ghost function Dropped(linker: Linker, head: Addr, m: Memory, targets: seq<Addr>, unload: bool): (o: Outcome)
    requires IsList(m, head) && ListStaysList(linker, head)
    ensures IsList(o.memory, head)
    decreases |targets|
  {
    if targets == [] then Outcome(m, [])
    else if targets[0] !in Chain(m, head) then Dropped(linker, head, m, targets[1..], unload)
    else
      var t := targets[0];
      ReleasedIsList(linker, head, m, t, unload);
      if m[t].size == 0 then Dropped(linker, head, m, targets[1..], unload)
      else
        var rest := Dropped(linker, head, Released(linker, m, t, unload), targets[1..], unload);
        Outcome(rest.memory, [Call(t, Prepared(m, t, unload), m[t].base, m[t].size)] + rest.calls)
  }

  ghost predicate Live(m: Memory, head: Addr, t: Addr)
    requires IsList(m, head)
  {
    t in Chain(m, head) && t in m && m[t].size != 0
  }

  lemma DroppedStep(linker: Linker, head: Addr, m: Memory, targets: seq<Addr>, unload: bool)
    requires IsList(m, head) && ListStaysList(linker, head) && targets != []
    ensures !Live(m, head, targets[0]) ==>
              Dropped(linker, head, m, targets, unload) == Dropped(linker, head, m, targets[1..], unload)
    ensures Live(m, head, targets[0]) ==>
              var t, o := targets[0], Dropped(linker, head, m, targets, unload);
              && IsList(Released(linker, m, t, unload), head)
              && var rest := Dropped(linker, head, Released(linker, m, t, unload), targets[1..], unload);
              && o.memory == rest.memory
              && o.calls == [Call(t, Prepared(m, t, unload), m[t].base, m[t].size)] + rest.calls
  {
    ChainFacts(m, head);
    if targets[0] in Chain(m, head) {
      ReleasedIsList(linker, head, m, targets[0], unload);
    }
  }

  /** The matching records, in list order. */
  function Matching(m: Memory, chain: seq<Addr>, needle: string): (found: seq<Addr>)
    requires forall a <- chain :: a in m
    ensures forall a :: a in found <==> a in chain && Matches(m[a], needle)
  {
    if chain == [] then []
    else (if Matches(m[chain[0]], needle) then [chain[0]] else []) + Matching(m, chain[1..], needle)
  }

  lemma MatchingStep(m: Memory, found: seq<Addr>, rest: seq<Addr>, needle: string)
    requires rest != [] && forall a <- rest :: a in m
    ensures found + Matching(m, rest, needle)
         == (if Matches(m[rest[0]], needle) then found + [rest[0]] else found) + Matching(m, rest[1..], needle)
  {
  }

  const ADDRESS := (a: Addr) => a

  predicate NoRepeats(s: seq<Addr>) {
    DistinctKeys(s, ADDRESS)
  }

  lemma {:induction false} MatchingNoRepeats(m: Memory, chain: seq<Addr>, needle: string)
    requires NoRepeats(chain) && forall a <- chain :: a in m
    ensures NoRepeats(Matching(m, chain, needle))
  {
    if chain != [] {
      MatchingNoRepeats(m, chain[1..], needle);
      assert chain[0] !in chain[1..];
    }
  }

  lemma ChainFacts(m: Memory, head: Addr)
    requires IsList(m, head)
    ensures NoRepeats(Chain(m, head)) && forall a <- Chain(m, head) :: a in m && a != NULL
  {
    var c := Chain(m, head);
    forall i, j | 0 <= i < j < |c| ensures c[i] != c[j] {
      ChainIsDistinct(m, head, c, i, j);
    }
    forall i | 0 <= i < |c| ensures c[i] in m && c[i] != NULL {
      LinkedFrom(m, head, c, i);
    }
  }

  /** The records to drop: all that match, highest address first. */
  ghost function Targets(m: Memory, head: Addr, needle: string): (t: seq<Addr>)
    requires IsList(m, head)
    ensures StrictlyDescending(t, ADDRESS)
    ensures forall a :: a in t <==> a in Chain(m, head) && a in m && Matches(m[a], needle)
  {
    ChainFacts(m, head);
    MatchingNoRepeats(m, Chain(m, head), needle);
    SortedStrictly(Matching(m, Chain(m, head), needle), ADDRESS);
    Sorted(Matching(m, Chain(m, head), needle), ADDRESS)
  }

  /** What a `when still zero` result holds after the values came by. */
  function FirstNonZero(first: nat, values: seq<nat>): nat
    decreases |values|
  {
    if first != 0 || values == [] then first else FirstNonZero(values[0], values[1..])
  }

  /** It is what there was, if that is not zero; otherwise the first value that is not; otherwise zero. */
  lemma {:induction false} FirstNonZeroIs(first: nat, values: seq<nat>)
    ensures var r := FirstNonZero(first, values);
            && (first != 0 ==> r == first)
            && (r == 0 <==> first == 0 && forall i :: 0 <= i < |values| ==> values[i] == 0)
            && (first == 0 && r != 0 ==>
                  exists i :: 0 <= i < |values| && values[i] == r && forall j :: 0 <= j < i ==> values[j] == 0)
    decreases |values|
  {
    if first == 0 && values != [] {
      FirstNonZeroIs(values[0], values[1..]);
      assert forall i :: 1 <= i < |values| ==> values[1..][i - 1] == values[i];
      assert forall i :: 0 <= i < |values| - 1 ==> values[1..][i] == values[i + 1];
      var r := FirstNonZero(values[0], values[1..]);
      if r != 0 && values[0] == 0 {
        var i :| 0 <= i < |values[1..]| && values[1..][i] == r && forall j :: 0 <= j < i ==> values[1..][j] == 0;
        assert values[i + 1] == r;
      }
    }
  }

  lemma {:induction false} FirstNonZeroSnoc(first: nat, values: seq<nat>, v: nat)
    ensures FirstNonZero(first, values + [v]) == FirstNonZero(FirstNonZero(first, values), [v])
    decreases |values|
  {
    if values != [] {
      assert (values + [v])[1..] == values[1..] + [v];
      FirstNonZeroSnoc(values[0], values[1..], v);
      if first == 0 {
        assert FirstNonZero(first, values + [v]) == FirstNonZero(values[0], values[1..] + [v]);
      }
    }
  }

  function Bases(calls: seq<Call>): (b: seq<nat>)
    ensures |b| == |calls|
  {
    seq(|calls|, i requires 0 <= i < |calls| => calls[i].base)
  }

  function Sizes(calls: seq<Call>): (s: seq<nat>)
    ensures |s| == |calls|
  {
    seq(|calls|, i requires 0 <= i < |calls| => calls[i].size)
  }

  /** A drop half done: the base and size it started with, the calls so far, what the targets left
      come to, and what all of them come to. */
  datatype Ledger = Ledger(base: nat, size: nat, calls: seq<Call>, rest: Outcome, all: Outcome)

  predicate Balanced(l: Ledger, base: nat, size: nat) {
    && l.rest.memory == l.all.memory && l.calls + l.rest.calls == l.all.calls
    && base == FirstNonZero(l.base, Bases(l.calls)) && size == FirstNonZero(l.size, Sizes(l.calls))
  }

  class SoList {
    var memory: Memory
    var solinker: Addr

    constructor (m: Memory, head: Addr)
      ensures memory == m && solinker == head
    {
      memory, solinker := m, head;
    }

    /** Walks the list and keeps the matching records. */
    method Collect(needle: string) returns (found: seq<Addr>)
      requires IsList(memory, solinker)
      ensures NoRepeats(found) && (forall a <- Chain(memory, solinker) :: a in memory)
      ensures found == Matching(memory, Chain(memory, solinker), needle)
    {
      ghost var chain := Chain(memory, solinker);
      ChainFacts(memory, solinker);
      MatchingNoRepeats(memory, chain, needle);
      found := [];
      var iter := solinker;
      ghost var rest := chain;
      while iter != NULL
        invariant Linked(memory, iter, rest) && (forall a <- rest :: a in memory)
        invariant found + Matching(memory, rest, needle) == Matching(memory, chain, needle)
        decreases |rest|
      {
        MatchingStep(memory, found, rest, needle);
        if Matches(memory[iter], needle) {
          found := found + [iter];
        }
        iter := memory[iter].next;
        rest := rest[1..];
      }
      assert rest == [] && found + [] == found;
    }

    method StillLinked(target: Addr) returns (linked: bool)
      requires IsList(memory, solinker)
      ensures linked <==> target in Chain(memory, solinker)
    {
      ghost var chain := Chain(memory, solinker);
      var iter := solinker;
      ghost var i := 0;
      assert chain[0..] == chain;
      while iter != NULL
        invariant 0 <= i <= |chain| && Linked(memory, iter, chain[i..]) && target !in chain[..i]
        decreases |chain| - i
      {
        assert chain[i..][0] == iter;
        if iter == target {
          return true;
        }
        iter := memory[iter].next;
        assert chain[i..][1..] == chain[i + 1..];
        i := i + 1;
      }
      assert chain[..i] == chain;
      return false;
    }

    /** Hands one linked record to the linker. */
    method Release(linker: Linker, target: Addr, unload: bool)
      requires target in memory
      modifies this`memory
      ensures memory == Released(linker, old(memory), target, unload)
    {
      var size := memory[target].size;
      memory := WithSize(memory, target, 0);
      if unload {
        memory := WithConstructorCalled(memory, target, false);
        memory := linker.unload(memory, target);
        memory := WithConstructorCalled(memory, target, true);
      } else {
        memory := linker.free(memory, target);
        memory := WithSize(memory, target, size);
      }
    }

    /** One target, if it is still linked and not yet empty. */
    method DropOne(linker: Linker, target: Addr, unload: bool) returns (done: bool, record: SoInfo)
      requires IsList(memory, solinker) && ListStaysList(linker, solinker)
      modifies this`memory
      ensures IsList(memory, solinker)
      ensures done <==> Live(old(memory), solinker, target)
      ensures !done ==> memory == old(memory)
      ensures done ==> record == old(memory)[target] && memory == Released(linker, old(memory), target, unload)
    {
      record := SoInfo(NoPath, 0, 0, false, NULL);
      done := StillLinked(target);
      if done {
        ReleasedIsList(linker, solinker, memory, target, unload);
        record := memory[target];
        done := record.size != 0;
        if done {
          Release(linker, target, unload);
        }
      }
    }

    /** The base and size kept for the caller are the first ones that are not zero. */
    static method KeepFirst(base: nat, size: nat, record: SoInfo, ghost l: Ledger, ghost call: Call)
      returns (base': nat, size': nat)
      requires base == FirstNonZero(l.base, Bases(l.calls)) && size == FirstNonZero(l.size, Sizes(l.calls))
      requires call.base == record.base && call.size == record.size
      ensures base' == FirstNonZero(l.base, Bases(l.calls + [call]))
      ensures size' == FirstNonZero(l.size, Sizes(l.calls + [call]))
    {
      AnotherCall(l.calls, call, l.base, l.size);
      base', size' := base, size;
      if base' == 0 {
        base' := record.base;
      }
      if size' == 0 {
        size' := record.size;
      }
    }

    /** The next target: what is still to come stays what the ledger says. */
    method DropNext(linker: Linker, target: Addr, unload: bool, base: nat, size: nat,
                    ghost targets: seq<Addr>, ghost l: Ledger)
      returns (done: bool, base': nat, size': nat, ghost l': Ledger)
      requires IsList(memory, solinker) && ListStaysList(linker, solinker) && targets != [] && target == targets[0]
      requires l.rest == Dropped(linker, solinker, memory, targets, unload) && Balanced(l, base, size)
      modifies this`memory
      ensures IsList(memory, solinker) && l'.rest == Dropped(linker, solinker, memory, targets[1..], unload)
      ensures Balanced(l', base', size') && l' == l.(calls := l'.calls, rest := l'.rest)
      ensures if done then l'.calls != [] else l'.calls == l.calls
    {
      DroppedStep(linker, solinker, memory, targets, unload);
      base', size' := base, size;
      ghost var before := memory;
      var record;
      done, record := DropOne(linker, target, unload);
      l' := l.(rest := Dropped(linker, solinker, memory, targets[1..], unload));
      if done {
        ghost var call := Call(target, Prepared(before, target, unload), record.base, record.size);
        assert l.rest.calls == [call] + l'.rest.calls;
        assert l.calls + l.rest.calls == (l.calls + [call]) + l'.rest.calls;
        base', size' := KeepFirst(base, size, record, l, call);
        l' := l'.(calls := l.calls + [call]);
      }
    }

    /** The targets in turn. */
    method DropTargets(linker: Linker, targets: seq<Addr>, unload: bool, base: nat, size: nat)
      returns (dropped: bool, base': nat, size': nat, ghost calls: seq<Call>)
      requires IsList(memory, solinker) && ListStaysList(linker, solinker)
      modifies this`memory
      ensures Outcome(memory, calls) == Dropped(linker, solinker, old(memory), targets, unload)
      ensures dropped <==> calls != []
      ensures base' == FirstNonZero(base, Bases(calls)) && size' == FirstNonZero(size, Sizes(calls))
    {
      dropped, base', size' := false, base, size;
      ghost var all := Dropped(linker, solinker, memory, targets, unload);
      ghost var l := Ledger(base, size, [], all, all);
      var i := 0;
      assert targets[0..] == targets;
      while i < |targets|
        invariant 0 <= i <= |targets| && IsList(memory, solinker)
        invariant l.rest == Dropped(linker, solinker, memory, targets[i..], unload)
        invariant Balanced(l, base', size') && l == Ledger(base, size, l.calls, l.rest, all)
        invariant dropped <==> l.calls != []
      {
        assert targets[i..][1..] == targets[i + 1..];
        var done;
        done, base', size', l := DropNext(linker, targets[i], unload, base', size', targets[i..], l);
        dropped := dropped || done;
        i := i + 1;
      }
      calls := l.calls;
      assert calls + [] == calls;
    }

    /** `initialized` is the list head that looking for it would come up with, NULL if none. */
    method DropSoPath(linker: Linker, needle: string, unload: bool, initialized: Addr, base: nat, size: nat)
      returns (dropped: bool, base': nat, size': nat, ghost calls: seq<Call>)
      requires solinker != NULL ==> IsList(memory, solinker) && ListStaysList(linker, solinker)
      requires solinker == NULL ==> IsList(memory, initialized) && ListStaysList(linker, initialized)
      modifies this
      ensures solinker == if old(solinker) == NULL then initialized else old(solinker)
      ensures Outcome(memory, calls)
           == Dropped(linker, solinker, old(memory), Targets(old(memory), solinker, needle), unload)
      ensures dropped <==> calls != []
      ensures base' == FirstNonZero(base, Bases(calls)) && size' == FirstNonZero(size, Sizes(calls))
    {
      dropped, base', size', calls := false, base, size, [];
      if solinker == NULL {
        solinker := initialized;
        if solinker == NULL {
          assert Targets(memory, NULL, needle) == [];
          return;
        }
      }
      var found := Collect(needle);
      dropped, base', size', calls := DropTargets(linker, Sorted(found, ADDRESS), unload, base, size);
    }
  }

  lemma AnotherCall(calls: seq<Call>, call: Call, base: nat, size: nat)
    ensures FirstNonZero(base, Bases(calls + [call])) == FirstNonZero(FirstNonZero(base, Bases(calls)), [call.base])
    ensures FirstNonZero(size, Sizes(calls + [call])) == FirstNonZero(FirstNonZero(size, Sizes(calls)), [call.size])
  {
    assert Bases(calls + [call]) == Bases(calls) + [call.base];
    assert Sizes(calls + [call]) == Sizes(calls) + [call.size];
    FirstNonZeroSnoc(base, Bases(calls), call.base);
    FirstNonZeroSnoc(size, Sizes(calls), call.size);
  }

  // ---------- what that guarantees ----------

  /** Only records that can still be reached are handed over, whatever earlier calls removed, with the
      base they have then, their size set to nothing, and, to be unloaded, as never constructed. */
  lemma {:induction false} CallsAreReachable(linker: Linker, head: Addr, m: Memory, targets: seq<Addr>, unload: bool)
    requires IsList(m, head) && ListStaysList(linker, head)
    ensures forall c <- Dropped(linker, head, m, targets, unload).calls ::
              && IsList(c.before, head) && c.target in Chain(c.before, head) && c.target in targets
              && c.target in c.before && c.before[c.target].size == 0 && c.size > 0
              && c.base == c.before[c.target].base && (unload ==> !c.before[c.target].constructorCalled)
    decreases |targets|
  {
    if targets != [] {
      var t := targets[0];
      DroppedStep(linker, head, m, targets, unload);
      if Live(m, head, t) {
        SameLinksChain(m, Prepared(m, t, unload), head);
        CallsAreReachable(linker, head, Released(linker, m, t, unload), targets[1..], unload);
      } else {
        CallsAreReachable(linker, head, m, targets[1..], unload);
      }
    }
  }

  /** The addresses handed over strictly descend, so none is handed over twice. */
  lemma {:induction false} CallsDescend(linker: Linker, head: Addr, m: Memory, targets: seq<Addr>, unload: bool)
    requires IsList(m, head) && ListStaysList(linker, head) && StrictlyDescending(targets, ADDRESS)
    ensures var calls := Dropped(linker, head, m, targets, unload).calls;
            forall i, j :: 0 <= i < j < |calls| ==> calls[i].target > calls[j].target
    decreases |targets|
  {
    if targets != [] {
      var t := targets[0];
      DroppedStep(linker, head, m, targets, unload);
      if Live(m, head, t) {
        var n := Released(linker, m, t, unload);
        CallsDescend(linker, head, n, targets[1..], unload);
        CallsAreReachable(linker, head, n, targets[1..], unload);
        var rest := Dropped(linker, head, n, targets[1..], unload).calls;
        assert forall b <- targets[1..] :: b < t;
        assert forall j :: 0 <= j < |rest| ==> rest[j] in rest && rest[j].target < t;
      } else {
        CallsDescend(linker, head, m, targets[1..], unload);
      }
    }
  }

  ghost predicate NoneLeft(m: Memory, head: Addr, needle: string, except: seq<Addr>)
    requires IsList(m, head)
  {
    forall a <- Chain(m, head) ::
      a in m && m[a].path.Path? && Contains(m[a].path.text, needle) && m[a].size != 0 ==> a in except
  }

  lemma ReleaseLeaves(linker: Linker, head: Addr, m: Memory, targets: seq<Addr>, unload: bool, needle: string)
    requires IsList(m, head) && ListStaysList(linker, head)
    requires OnlyRemoves(Chosen(linker, unload), head) && (unload || Unlinks(linker.free, head))
    requires targets != [] && targets[0] in Chain(m, head) && NoneLeft(m, head, needle, targets)
    requires unload || targets[0] != head
    ensures targets[0] in m && IsList(Released(linker, m, targets[0], unload), head)
    ensures NoneLeft(Released(linker, m, targets[0], unload), head, needle, targets[1..])
  {
    var t := targets[0];
    ReleasedIsList(linker, head, m, t, unload);
    var c, p, n := Chain(m, head), Prepared(m, t, unload), Released(linker, m, t, unload);
    SameLinksChain(m, p, head);
    ChainFacts(m, head);
    ChainFacts(n, head);
    var q := if unload then linker.unload(p, t) else linker.free(p, t);
    var d := Chain(n, head);
    SameLinksLinked(n, q, head, d);
    assert Survive(p, c, q, d);
    forall a | a in d && Matches(n[a], needle) ensures a in targets[1..] {
      assert q[a].path == p[a].path && q[a].size == p[a].size;
      assert a in targets;
    }
  }

  /** Provided the linker only removes records, and its free takes out the one it is handed, no
      matching record with a size can be reached any more, unless the head itself was to be freed.
      Unload need not even take out the record it is handed: its size stays 0. */
  lemma {:induction false} NoMatchRemains(linker: Linker, head: Addr, m: Memory, targets: seq<Addr>, unload: bool,
                                          needle: string)
    requires IsList(m, head) && ListStaysList(linker, head)
    requires OnlyRemoves(Chosen(linker, unload), head) && (unload || Unlinks(linker.free, head))
    requires NoneLeft(m, head, needle, targets) && (unload || head !in targets)
    ensures NoneLeft(Dropped(linker, head, m, targets, unload).memory, head, needle, [])
    decreases |targets|
  {
    if targets != [] {
      var t := targets[0];
      DroppedStep(linker, head, m, targets, unload);
      if Live(m, head, t) {
        ReleaseLeaves(linker, head, m, targets, unload, needle);
        NoMatchRemains(linker, head, Released(linker, m, t, unload), targets[1..], unload, needle);
      } else {
        NoMatchRemains(linker, head, m, targets[1..], unload, needle);
      }
    }
  }

  /** Whether the first record of the list is one to drop. */
  predicate HeadMatches(m: Memory, head: Addr, needle: string) {
    head != NULL && head in m && m[head].path.Path? && Contains(m[head].path.text, needle) && m[head].size != 0
  }

  lemma HeadInChain(m: Memory, head: Addr)
    requires IsList(m, head) && head != NULL
    ensures head in m && head in Chain(m, head)
  {
    assert Linked(m, head, Chain(m, head));
    assert Chain(m, head)[0] == head;
  }

  /** A head that matches and is freed still matches: its size is written back. */
  lemma {:induction false} FreedHeadRemains(linker: Linker, head: Addr, m: Memory, targets: seq<Addr>, needle: string)
    requires IsList(m, head) && ListStaysList(linker, head) && OnlyRemoves(linker.free, head)
    requires HeadMatches(m, head, needle)
    ensures HeadMatches(Dropped(linker, head, m, targets, false).memory, head, needle)
    decreases |targets|
  {
    if targets != [] {
      var t := targets[0];
      DroppedStep(linker, head, m, targets, false);
      if Live(m, head, t) {
        HeadSurvives(linker, head, m, t, needle);
        FreedHeadRemains(linker, head, Released(linker, m, t, false), targets[1..], needle);
      } else {
        FreedHeadRemains(linker, head, m, targets[1..], needle);
      }
    }
  }

  lemma HeadSurvives(linker: Linker, head: Addr, m: Memory, t: Addr, needle: string)
    requires IsList(m, head) && ListStaysList(linker, head) && OnlyRemoves(linker.free, head)
    requires HeadMatches(m, head, needle) && Live(m, head, t)
    ensures HeadMatches(Released(linker, m, t, false), head, needle)
  {
    var p := Prepared(m, t, false);
    var q := linker.free(p, t);
    ReleasedIsList(linker, head, m, t, false);
    SameLinksChain(m, p, head);
    assert Linked(p, head, Chain(p, head)) && IsList(q, head);
    HeadInChain(q, head);
    assert Survive(p, Chain(p, head), q, Chain(q, head));
  }

  /** The whole call: what is handed over matched at the start, can be reached when its turn comes,
      and descends; and nothing that matches remains exactly if the records are unloaded, or the
      first one is not among them. */
  lemma DropSoPathIsComplete(linker: Linker, head: Addr, m: Memory, unload: bool, needle: string)
    requires IsList(m, head) && ListStaysList(linker, head)
    ensures var calls := Dropped(linker, head, m, Targets(m, head, needle), unload).calls;
            && (forall i, j :: 0 <= i < j < |calls| ==> calls[i].target > calls[j].target)
            && forall c <- calls :: c.target in m && m[c.target].path.Path? && Contains(m[c.target].path.text, needle)
                                 && m[c.target].size != 0
                                 && IsList(c.before, head) && c.target in Chain(c.before, head)
    ensures OnlyRemoves(Chosen(linker, unload), head) && (unload || Unlinks(linker.free, head)) ==>
              (NoneLeft(Dropped(linker, head, m, Targets(m, head, needle), unload).memory, head, needle, [])
               <==> unload || !HeadMatches(m, head, needle))
  {
    CallsDescend(linker, head, m, Targets(m, head, needle), unload);
    CallsAreReachable(linker, head, m, Targets(m, head, needle), unload);
    if OnlyRemoves(Chosen(linker, unload), head) && (unload || Unlinks(linker.free, head)) {
      MatchRemainsExactly(linker, head, m, unload, needle);
    }
  }

  lemma MatchRemainsExactly(linker: Linker, head: Addr, m: Memory, unload: bool, needle: string)
    requires IsList(m, head) && ListStaysList(linker, head)
    requires OnlyRemoves(Chosen(linker, unload), head) && (unload || Unlinks(linker.free, head))
    ensures NoneLeft(Dropped(linker, head, m, Targets(m, head, needle), unload).memory, head, needle, [])
       <==> unload || !HeadMatches(m, head, needle)
  {
    var targets := Targets(m, head, needle);
    if unload || !HeadMatches(m, head, needle) {
      ChainFacts(m, head);
      NoMatchRemains(linker, head, m, targets, unload, needle);
    } else {
      FreedHeadRemains(linker, head, m, targets, needle);
      HeadInChain(Dropped(linker, head, m, targets, unload).memory, head);
    }
  }

  /** With a linker that takes records out one by one: dropping by freeing works, on any list whose
      first record does not match. */
  lemma SplicerDrops(head: Addr, m: Memory, needle: string)
    requires head != NULL && IsList(m, head) && !HeadMatches(m, head, needle)
    ensures ListStaysList(Linker(Splicer(head), Splicer(head)), head)
    ensures var linker := Linker(Splicer(head), Splicer(head));
            NoneLeft(Dropped(linker, head, m, Targets(m, head, needle), false).memory, head, needle, [])
  {
    SplicerBehaves(head);
    MatchRemainsExactly(Linker(Splicer(head), Splicer(head)), head, m, false, needle);
  }
}
