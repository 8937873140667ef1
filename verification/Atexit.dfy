/**
 Scrubbing libc's exit-handler array: page arithmetic in machine words, the compaction of the
 array in place, and the lock it runs under. Which mprotect and trylock calls succeed is a parameter.
 */
module Atexit {
  import opened Bits

  const LOCK_ATTEMPTS := 8
  const MAX_REASONABLE_ATEXIT_ENTRIES := 4096 * 16

  /** Word width and page size, as exponents of two where they are: a word of `w` bits, pages of
      2^k bytes. */
  datatype Machine = Machine(w: nat, k: nat)

  predicate Supported(m: Machine) {
    (m.w == 32 || m.w == 64) && m.k <= 16
  }

  datatype ScrubStatus =
    | Done
    | NothingToScrub
    | NoArray
    | NoLock
    | LockBusy
    | NotWritable
    | LeftWritable

  datatype Entry = Entry(fn: nat, arg: nat, dso: nat)

  const ZERO := Entry(0, 0, 0)

  // ---------- pages ----------

  function PageStart(m: Machine, x: nat): nat
    requires m.k <= m.w
  {
    Pow2Mono(m.k, m.w);
    And(x, Not(m.w, Pow2(m.k) - 1))
  }

  function PageOffset(m: Machine, x: nat): nat {
    And(x, Pow2(m.k) - 1)
  }

  /** The addition wraps around. */
  function PageEnd(m: Machine, x: nat): nat
    requires m.k <= m.w
  {
    PageStart(m, (x + Pow2(m.k) - 1) % Pow2(m.w))
  }

  lemma PageStartIsFloor(m: Machine, x: nat)
    requires m.k <= m.w && x < Pow2(m.w)
    ensures PageStart(m, x) == x - x % Pow2(m.k)
  {
    MaskIsFloor(m.w, m.k, x);
  }

  lemma PageOffsetIsRemainder(m: Machine, x: nat)
    ensures PageOffset(m, x) == x % Pow2(m.k)
  {
    LowIsMask(x, m.k);
    HighLowAre(x, m.k);
  }

  predicate IsCeiling(r: nat, x: nat, p: nat)
    requires p > 0
  {
    r % p == 0 && x <= r < x + p
  }

  /** page_end is the page boundary at or after x exactly if the sum it rounds down does not wrap. */
  lemma PageEndIsCeilingExactly(m: Machine, x: nat)
    requires m.k <= m.w && x < Pow2(m.w)
    ensures IsCeiling(PageEnd(m, x), x, Pow2(m.k)) <==> x + Pow2(m.k) - 1 < Pow2(m.w)
  {
    Pow2Mono(m.k, m.w);
    PageEndForm(m, x);
    RoundsUpExactly(x, Pow2(m.k), Pow2(m.w), PageEnd(m, x));
  }

  lemma RoundsUpExactly(x: nat, p: nat, q: nat, r: nat)
    requires 0 < p <= q && x < q
    requires var sum := (x + p - 1) % q; r == sum - sum % p
    ensures IsCeiling(r, x, p) <==> x + p - 1 < q
  {
    if x + p - 1 < q {
      RoundUp(x, p, q);
    } else {
      RoundUpWraps(x, p, q);
    }
  }

  lemma PageEndForm(m: Machine, x: nat)
    requires m.k <= m.w
    ensures var sum := (x + Pow2(m.k) - 1) % Pow2(m.w);
            PageEnd(m, x) == sum - sum % Pow2(m.k)
  {
    var sum := x + Pow2(m.k) - 1;
    ModBelow(sum, Pow2(m.w));
    var wrapped := sum % Pow2(m.w);
    PageStartIsFloor(m, wrapped);
  }

  lemma ModBelow(x: nat, q: nat)
    requires q > 0
    ensures x % q < q
  {
  }

  lemma RoundUp(x: nat, p: nat, q: nat)
    requires p > 0 && x + p - 1 < q
    ensures (x + p - 1) % q == x + p - 1
    ensures IsCeiling(x + p - 1 - (x + p - 1) % p, x, p)
  {
    Division(x + p - 1, q, 0, x + p - 1);
    FloorIsMultiple(x + p - 1, p);
  }

  lemma RoundUpWraps(x: nat, p: nat, q: nat)
    requires 0 < p <= q && x < q <= x + p - 1
    ensures var sum := (x + p - 1) % q; sum - sum % p == 0 < x
  {
    Division(x + p - 1, q, 1, x + p - 1 - q);
    Division(x + p - 1 - q, p, 0, x + p - 1 - q);
  }

  lemma FloorIsMultiple(x: nat, p: nat)
    requires p > 0
    ensures x % p < p && (x - x % p) % p == 0
  {
    Euclid(x, p);
    Division(x - x % p, p, x / p, 0);
  }

  // ---------- entries ----------

  function WordBytes(m: Machine): nat {
    m.w / 8
  }

  function EntryBytes(m: Machine): nat {
    3 * WordBytes(m)
  }

  function ByteOffset(m: Machine, i: nat): nat {
    i * EntryBytes(m)
  }

  function PageStartOfIndex(m: Machine, i: nat): nat
    requires m.k <= m.w
  {
    PageStart(m, ByteOffset(m, i) % Pow2(m.w))
  }

  function PageEndOfIndex(m: Machine, i: nat): nat
    requires m.k <= m.w
  {
    PageEnd(m, ByteOffset(m, i) % Pow2(m.w))
  }

  /** The end of the page of entry i is the page boundary at or after its offset. */
  predicate EndsPageOf(m: Machine, i: nat)
    requires m.k <= m.w
  {
    IsCeiling(PageEndOfIndex(m, i), ByteOffset(m, i), Pow2(m.k))
  }

  /** For every array the sanity check admits, the page helpers of an index do not wrap. */
  lemma PagesOfIndex(m: Machine, i: nat)
    requires Supported(m) && i < MAX_REASONABLE_ATEXIT_ENTRIES
    ensures EndsPageOf(m, i) && PageStartOfIndex(m, 0) == 0
  {
    Pow2Values();
    Pow2Mono(m.k, 16);
    Pow2Mono(32, m.w);
    var bytes := ByteOffset(m, i);
    OffsetBound(m, i);
    Division(bytes, Pow2(m.w), 0, bytes);
    PageEndIsCeilingExactly(m, bytes);
    FirstPage(m);
  }

  lemma OffsetBound(m: Machine, i: nat)
    requires Supported(m)
    ensures i <= ByteOffset(m, i) <= 24 * i
  {
    assert EntryBytes(m) == 12 || EntryBytes(m) == 24;
  }

  lemma FirstPage(m: Machine)
    requires m.k <= m.w
    ensures PageStartOfIndex(m, 0) == 0
  {
    Division(0, Pow2(m.w), 0, 0);
    PageStartIsFloor(m, 0);
    Division(0, Pow2(m.k), 0, 0);
    assert ByteOffset(m, 0) == 0;
  }

  lemma CeilingMonotone(r: nat, x: nat, s: nat, y: nat, p: nat)
    requires p > 0 && IsCeiling(r, x, p) && IsCeiling(s, y, p) && x <= y
    ensures r <= s
  {
    Euclid(r, p);
    Euclid(s, p);
    if s < r {
      var a, b := r / p, s / p;
      assert r == a * p && s == b * p;
      if a <= b {
        if a < b { MulLess(a, b, p); }
        assert false;
      }
      MulLess(b, a, p);
    }
  }

  /** The live entries, in order. */
  function Live(s: seq<Entry>): seq<Entry> {
    if s == [] then []
    else
      var front := Live(s[..|s| - 1]);
      if s[|s| - 1].fn != 0 then front + [s[|s| - 1]] else front
  }

  lemma LiveNext(s: seq<Entry>, n: nat)
    requires n < |s|
    ensures Live(s[..n + 1]) == Live(s[..n]) + if s[n].fn != 0 then [s[n]] else []
  {
    assert s[..n + 1][..n] == s[..n];
  }

  /** The state of the compaction when it has looked at the first `src` entries. */
  predicate Shifted(before: seq<Entry>, now: seq<Entry>, dst: nat, src: nat) {
    && dst <= src <= |before| && |now| == |before|
    && now[..dst] == Live(before[..src])
    && (forall i :: dst <= i < src ==> now[i] == ZERO)
    && (forall i :: src <= i < |now| ==> now[i] == before[i])
  }

  lemma ShiftedStep(before: seq<Entry>, now: seq<Entry>, dst: nat, src: nat)
    requires Shifted(before, now, dst, src) && src < |before|
    ensures var entry := before[src];
            if entry.fn != 0 then Shifted(before, now[src := ZERO][dst := entry], dst + 1, src + 1)
            else Shifted(before, now[src := ZERO], dst, src + 1)
  {
    LiveNext(before, src);
    var entry := before[src];
    if entry.fn != 0 {
      assert now[src := ZERO][dst := entry][..dst + 1] == now[..dst] + [entry];
    } else {
      assert now[src := ZERO][..dst] == now[..dst];
    }
  }

  function Nulls(s: seq<Entry>): nat {
    if s == [] then 0 else Nulls(s[..|s| - 1]) + (if s[|s| - 1].fn == 0 then 1 else 0)
  }

  lemma {:induction false} LiveCount(s: seq<Entry>)
    ensures |Live(s)| + Nulls(s) == |s|
  {
    if s != [] {
      LiveCount(s[..|s| - 1]);
    }
  }

  /** Every live entry moves down by the null ones in front of it, and by nothing else. */
  lemma {:induction false} LiveAt(s: seq<Entry>, i: nat)
    requires i < |s| && s[i].fn != 0
    ensures Nulls(s[..i]) <= i && i - Nulls(s[..i]) < |Live(s)| && Live(s)[i - Nulls(s[..i])] == s[i]
  {
    var last := |s| - 1;
    LiveCount(s[..i]);
    if i < last {
      LiveAt(s[..last], i);
      assert s[..last][..i] == s[..i];
    } else {
      assert Live(s) == Live(s[..i]) + [s[i]];
    }
  }

  lemma {:induction false} NoNullsAllLive(s: seq<Entry>)
    requires Nulls(s) == 0
    ensures Live(s) == s
  {
    if s != [] {
      NoNullsAllLive(s[..|s| - 1]);
    }
  }

  /** An entry at index i after the bytes [lo, hi) of the array have been zeroed. */
  function Wiped(m: Machine, e: Entry, i: nat, lo: nat, hi: nat): Entry {
    var word, at := WordBytes(m), ByteOffset(m, i);
    Entry(if lo <= at < hi then 0 else e.fn,
          if lo <= at + word < hi then 0 else e.arg,
          if lo <= at + 2 * word < hi then 0 else e.dso)
  }

  /** The offset just behind entry i. */
  function EntryEnd(m: Machine, i: nat): nat {
    ByteOffset(m, i + 1)
  }

  /** What the pass asks of the kernel, on byte offsets into the array. */
  datatype Call =
    | Protect(writable: bool, start: nat, length: nat)
    | Discard(start: nat, length: nat)

  class Mutex {
    var ours: bool

    constructor ()
      ensures !ours
    {
      ours := false;
    }

    /** `free` is whether nobody else holds it. */
    method TryLock(free: bool) returns (taken: bool)
      requires !ours
      modifies this
      ensures taken == free && ours == free
    {
      ours := free;
      return free;
    }

    method Unlock()
      requires ours
      modifies this
      ensures !ours
    {
      ours := false;
    }
  }

  class AtexitArray {
    const machine: Machine
    const entries: array?<Entry>
    var size: nat
    var extractedCount: nat
    var capacity: nat
    var totalAppends: nat

    constructor (machine: Machine, entries: array?<Entry>, size: nat, extractedCount: nat, capacity: nat, totalAppends: nat)
      ensures this.machine == machine && this.entries == entries && this.size == size
      ensures this.extractedCount == extractedCount && this.capacity == capacity && this.totalAppends == totalAppends
    {
      this.machine, this.entries, this.size := machine, entries, size;
      this.extractedCount, this.capacity, this.totalAppends := extractedCount, capacity, totalAppends;
    }

    /** The array holds `size` entries, and the size passed the sanity check. */
    ghost predicate Valid()
      reads this
    {
      Supported(machine) && size < MAX_REASONABLE_ATEXIT_ENTRIES && (entries != null ==> size <= entries.Length)
    }

    predicate HasFingerprint()
      reads this
    {
      extractedCount > 0 || totalAppends > size
    }

    function Contents(): seq<Entry>
      reads this, entries
      requires entries != null
    {
      entries[..]
    }

    method SetWritable(writable: bool, startIdx: nat, numEntries: nat, granted: bool)
      returns (ok: bool, call: Call)
      requires Valid() && startIdx == 0 && numEntries == size
      ensures ok <==> entries != null && granted
      ensures call == Protect(writable, 0, PageEndOfIndex(machine, size))
    {
      PagesOfIndex(machine, numEntries);
      var startByte := PageStartOfIndex(machine, startIdx);
      var stopByte := PageEndOfIndex(machine, startIdx + numEntries);
      call := Protect(writable, startByte, stopByte - startByte);
      return entries != null && granted, call;
    }

    /** How many entries at the front are live. */
    method SkipLive() returns (n: nat)
      requires Valid() && entries != null
      ensures n <= size && Shifted(entries[..], entries[..], n, n)
    {
      ghost var now := entries[..];
      n := 0;
      while n < size && entries[n].fn != 0
        invariant n <= size && now[..n] == Live(now[..n])
      {
        LiveNext(now, n);
        assert now[..n + 1] == now[..n] + [now[n]];
        n := n + 1;
      }
    }

    /** The compaction loop: live entries to the front, zeroes behind them. */
    method ShiftLive() returns (dst: nat)
      requires Valid() && entries != null
      modifies entries
      ensures dst <= size && Shifted(old(entries[..]), entries[..], dst, size)
    {
      ghost var before := entries[..];
      var src := SkipLive();
      dst := src;
      while src < size
        invariant dst <= src <= size
        invariant Shifted(before, entries[..], dst, src)
      {
        ghost var now := entries[..];
        ShiftedStep(before, now, dst, src);
        var entry := entries[src];
        entries[src] := ZERO;
        assert entries[..] == now[src := ZERO];
        if entry.fn != 0 {
          entries[dst] := entry;
          assert entries[..] == now[src := ZERO][dst := entry];
          dst := dst + 1;
        }
        src := src + 1;
      }
    }

    /** madvise(MADV_DONTNEED) on the bytes [start, start + length) of the array. */
    method DiscardPages(start: nat, length: nat) returns (call: Call)
      requires entries != null
      modifies entries
      ensures call == Discard(start, length)
      ensures forall i :: 0 <= i < entries.Length ==>
                entries[i] == Wiped(machine, old(entries[i]), i, start, start + length)
    {
      forall i | 0 <= i < entries.Length {
        entries[i] := Wiped(machine, entries[i], i, start, start + length);
      }
      return Discard(start, length);
    }

    /** The half of the pass between the two mprotect calls. */
    method CompactOpened() returns (dst: nat, calls: seq<Call>)
      requires Valid() && entries != null
      modifies entries
      ensures dst <= size
      ensures Compacted(machine, old(entries[..]), entries[..], size, dst)
      ensures var oldEnd, newEnd := PageEndOfIndex(machine, size), PageEndOfIndex(machine, dst);
              newEnd <= oldEnd && calls == if newEnd < oldEnd then [Discard(newEnd, oldEnd - newEnd)] else []
    {
      dst := ShiftLive();
      var oldBytes := PageEndOfIndex(machine, size);
      var newBytes := PageEndOfIndex(machine, dst);
      PagesOfIndex(machine, dst);
      DiscardIsClear(machine, dst, size);
      ghost var shifted := entries[..];
      calls := [];
      if newBytes < oldBytes {
        var discard := DiscardPages(newBytes, oldBytes - newBytes);
        calls := [discard];
      }
      DiscardKeeps(machine, old(entries[..]), shifted, entries[..], size, dst);
    }

    /** The pages are opened, the array is compacted and the pages are closed again. */
    method OpenAndCompact(opens: bool, closes: bool)
      returns (writable: bool, restored: bool, dst: nat, calls: seq<Call>)
      requires Valid()
      modifies entries
      ensures writable <==> entries != null && opens
      ensures !writable && entries != null ==> entries[..] == old(entries[..])
      ensures writable ==>
                var oldEnd, newEnd := PageEndOfIndex(machine, size), PageEndOfIndex(machine, dst);
                && restored == closes && dst <= size
                && Compacted(machine, old(entries[..]), entries[..], size, dst)
                && calls == [Protect(true, 0, oldEnd)]
                            + (if newEnd < oldEnd then [Discard(newEnd, oldEnd - newEnd)] else [])
                            + [Protect(false, 0, oldEnd)]
    {
      restored, dst := true, 0;
      var call;
      writable, call := SetWritable(true, 0, size, opens);
      calls := [call];
      if writable {
        var discards;
        dst, discards := CompactOpened();
        restored, call := SetWritable(false, 0, size, closes);
        calls := calls + discards + [call];
      }
    }

    /** `opens` and `closes` are whether the two mprotect calls would be granted. */
    method Recompact(lock: Mutex, opens: bool, closes: bool) returns (status: ScrubStatus, calls: seq<Call>)
      requires Valid() && lock.ours
      modifies this`size, this`extractedCount, this`totalAppends, entries
      ensures Valid()
      ensures status ==
              if old(extractedCount) == 0 && old(totalAppends) <= old(size) then NothingToScrub
              else if old(extractedCount) == 0 then Done
              else if entries == null || !opens then NotWritable
              else if closes then Done else LeftWritable
      ensures status == NothingToScrub || status == NotWritable ==>
                && size == old(size) && extractedCount == old(extractedCount) && totalAppends == old(totalAppends)
      ensures (status == Done || status == LeftWritable) ==>
                extractedCount == 0 && totalAppends == size
      ensures old(extractedCount) == 0 || status == NotWritable ==>
                size == old(size) && (entries != null ==> entries[..] == old(entries[..]))
      ensures (status == Done || status == LeftWritable) && old(extractedCount) > 0 ==>
                var oldEnd, newEnd := PageEndOfIndex(machine, old(size)), PageEndOfIndex(machine, size);
                && size <= old(size) && Compacted(machine, old(entries[..]), entries[..], old(size), size)
                && calls == [Protect(true, 0, oldEnd)]
                            + (if newEnd < oldEnd then [Discard(newEnd, oldEnd - newEnd)] else [])
                            + [Protect(false, 0, oldEnd)]
      ensures (status == Done || status == LeftWritable) && entries != null
              && old(extractedCount) == Nulls(old(if entries != null then entries[..size] else [])) ==>
                && entries[..size] == Live(old(entries[..size])) && size == old(size) - old(extractedCount)
    {
      ghost var before: seq<Entry> := if entries != null then entries[..size] else [];
      calls := [];
      if !HasFingerprint() {
        return NothingToScrub, calls;
      }
      var restored := true;
      if extractedCount > 0 {
        var writable, dst;
        writable, restored, dst, calls := OpenAndCompact(opens, closes);
        if !writable {
          return NotWritable, calls;
        }
        size := dst;
        extractedCount := 0;
      }
      totalAppends := size;
      if entries != null && old(extractedCount) == Nulls(before) {
        PassKeepsLive(before, old(extractedCount), entries[..size]);
      }
      return if restored then Done else LeftWritable, calls;
    }
  }

  /** What the pass makes of the array: the live entries in their order, zeroes up to the old size,
      and past it whatever the discarded pages take. */
  predicate Compacted(m: Machine, before: seq<Entry>, after: seq<Entry>, oldSize: nat, newSize: nat)
    requires m.k <= m.w
  {
    && newSize <= oldSize <= |before| == |after|
    && after[..newSize] == Live(before[..oldSize])
    && (forall i :: newSize <= i < oldSize ==> after[i] == ZERO)
    && (forall i :: oldSize <= i < |after| ==>
          after[i] == Wiped(m, before[i], i, PageEndOfIndex(m, newSize), PageEndOfIndex(m, oldSize)))
  }

  lemma DiscardKeeps(m: Machine, before: seq<Entry>, shifted: seq<Entry>, after: seq<Entry>, oldSize: nat, newSize: nat)
    requires Supported(m) && newSize <= oldSize <= |before| == |after| == |shifted| && oldSize < MAX_REASONABLE_ATEXIT_ENTRIES
    requires Shifted(before, shifted, newSize, oldSize)
    requires var lo, hi := PageEndOfIndex(m, newSize), PageEndOfIndex(m, oldSize);
             if lo < hi then forall i :: 0 <= i < |after| ==> after[i] == Wiped(m, shifted[i], i, lo, hi)
             else after == shifted
    ensures Compacted(m, before, after, oldSize, newSize)
  {
    var lo, hi := PageEndOfIndex(m, newSize), PageEndOfIndex(m, oldSize);
    PagesOfIndex(m, newSize);
    if lo < hi {
      forall i | 0 <= i < oldSize
        ensures after[i] == shifted[i]
      {
        WipedLive(m, shifted[i], i, newSize, lo, hi);
      }
      assert after[..newSize] == shifted[..newSize];
    } else {
      forall i | oldSize <= i < |after|
        ensures Wiped(m, before[i], i, lo, hi) == before[i]
      {
      }
    }
  }

  // ---------- the ranges ----------

  /** Every byte the compaction writes is in the opened range, the discarded range is part of it,
      and no live entry has a byte in the discarded range, not even one that straddles a page. */
  lemma DiscardIsClear(m: Machine, newSize: nat, oldSize: nat)
    requires Supported(m) && newSize <= oldSize < MAX_REASONABLE_ATEXIT_ENTRIES
    ensures ByteOffset(m, oldSize) <= PageEndOfIndex(m, oldSize)
    ensures PageEndOfIndex(m, newSize) <= PageEndOfIndex(m, oldSize)
    ensures forall i :: 0 <= i < newSize ==> EntryEnd(m, i) <= PageEndOfIndex(m, newSize)
  {
    PagesOfIndex(m, newSize);
    PagesOfIndex(m, oldSize);
    OffsetMono(m, newSize, oldSize);
    CeilingMonotone(PageEndOfIndex(m, newSize), ByteOffset(m, newSize), PageEndOfIndex(m, oldSize), ByteOffset(m, oldSize),
                    Pow2(m.k));
    forall i | 0 <= i < newSize
      ensures EntryEnd(m, i) <= PageEndOfIndex(m, newSize)
    {
      OffsetMono(m, i + 1, newSize);
    }
  }

  lemma OffsetMono(m: Machine, i: nat, j: nat)
    requires Supported(m) && i <= j
    ensures ByteOffset(m, i) + (j - i) * EntryBytes(m) == ByteOffset(m, j) && ByteOffset(m, i) <= ByteOffset(m, j)
  {
    assert EntryBytes(m) == 12 || EntryBytes(m) == 24;
  }

  /** Discarding changes no live entry, and none that is zero already. */
  lemma WipedLive(m: Machine, e: Entry, i: nat, newSize: nat, lo: nat, hi: nat)
    requires Supported(m) && ByteOffset(m, newSize) <= lo
    requires i < newSize || e == ZERO
    ensures Wiped(m, e, i, lo, hi) == e
  {
    if i < newSize {
      OffsetMono(m, i, i + 1);
      OffsetMono(m, i + 1, newSize);
    }
  }

  /** When libc's count of null entries is right, a pass that went through leaves exactly the live
      entries, and as many fewer as were counted. */
  lemma PassKeepsLive(before: seq<Entry>, extracted: nat, after: seq<Entry>)
    requires extracted == Nulls(before)
    requires after == if extracted > 0 then Live(before) else before
    ensures after == Live(before) && |after| == |before| - extracted
  {
    LiveCount(before);
    if extracted == 0 {
      NoNullsAllLive(before);
    }
  }

  /** The pass from the outside: the array is only touched with the lock taken, and the lock is
      never left behind. `free(n)` is whether nobody else holds the lock at attempt n. */
  method ScrubFingerprint(array_: AtexitArray?, lock: Mutex?, free: nat -> bool, opens: bool, closes: bool)
    returns (status: ScrubStatus)
    requires array_ != null ==> Supported(array_.machine) && (array_.entries != null ==> array_.size <= array_.entries.Length)
    requires lock != null ==> !lock.ours
    modifies array_, lock, if array_ != null then {array_.entries} else {}
    ensures lock != null ==> !lock.ours
    ensures status == NoArray <==> array_ == null || old(array_.size) >= MAX_REASONABLE_ATEXIT_ENTRIES
    ensures status == NoLock <==> status != NoArray && lock == null
    ensures status == LockBusy <==>
              status != NoArray && status != NoLock && forall n: nat :: n < LOCK_ATTEMPTS ==> !free(n)
    ensures array_ != null && status in {NoArray, NoLock, LockBusy, NothingToScrub, NotWritable} ==>
              && array_.size == old(array_.size) && array_.extractedCount == old(array_.extractedCount)
              && array_.totalAppends == old(array_.totalAppends)
              && (array_.entries != null ==> array_.Contents() == old(array_.Contents()))
    ensures status !in {NoArray, NoLock, LockBusy} ==>
              status == if old(array_.extractedCount) == 0 && old(array_.totalAppends) <= old(array_.size) then NothingToScrub
                        else if old(array_.extractedCount) == 0 then Done
                        else if array_.entries == null || !opens then NotWritable
                        else if closes then Done else LeftWritable
    ensures status == Done || status == LeftWritable ==>
              && array_ != null && array_.extractedCount == 0 && array_.totalAppends == array_.size <= old(array_.size)
              && (old(array_.extractedCount) == 0 ==> array_.size == old(array_.size))
              && (array_.entries != null ==>
                    if old(array_.extractedCount) == 0 then array_.Contents() == old(array_.Contents())
                    else Compacted(array_.machine, old(array_.Contents()), array_.Contents(), old(array_.size), array_.size))
  {
    if array_ == null || array_.size >= MAX_REASONABLE_ATEXIT_ENTRIES {
      return NoArray;
    }
    if lock == null {
      return NoLock;
    }
    var locked := false;
    var attempt: nat := 0;
    while attempt < LOCK_ATTEMPTS && !locked
      invariant attempt <= LOCK_ATTEMPTS && locked == lock.ours
      invariant locked ==> exists n: nat :: n < LOCK_ATTEMPTS && free(n)
      invariant !locked ==> forall n: nat :: n < attempt ==> !free(n)
      invariant array_.size == old(array_.size) && array_.extractedCount == old(array_.extractedCount)
      invariant array_.totalAppends == old(array_.totalAppends)
      invariant array_.entries != null ==> array_.Contents() == old(array_.Contents())
    {
      locked := lock.TryLock(free(attempt));
      attempt := attempt + 1;
    }
    if !locked {
      return LockBusy;
    }
    var calls;
    status, calls := array_.Recompact(lock, opens, closes);
    lock.Unlock();
  }
}
