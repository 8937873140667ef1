/**
 The byte streams between the daemon and the injected library. A stream is a sequence of cells, a
 byte each, that may carry a file descriptor. Reads and writes may be short or interrupted.
 */
module Wire {
  import opened Bytes

  type Fd = nat

  datatype Attached = Nothing | Attached(fd: Fd)

  datatype Cell = Cell(byte: Byte, attached: Attached)

  datatype Module = Module(name: seq<Byte>, fd: Fd)

  /** A descriptor travels with this many bytes. */
  const FD_BYTES: nat := 4

  // ---------- what the daemon writes ----------

  function Plain(bytes: seq<Byte>): (c: seq<Cell>)
    ensures |c| == |bytes| && BytesOf(c) == bytes
  {
    seq(|bytes|, i requires 0 <= i < |bytes| => Cell(bytes[i], Nothing))
  }

  function BytesOf(cells: seq<Cell>): (b: seq<Byte>)
    ensures |b| == |cells|
  {
    seq(|cells|, i requires 0 <= i < |cells| => cells[i].byte)
  }

  function UsizeCells(value: nat, w: nat): seq<Cell> {
    Plain(Encode(value, w))
  }

  function StringCells(text: seq<Byte>, w: nat): seq<Cell> {
    UsizeCells(|text|, w) + Plain(text)
  }

  function FdCells(fd: Fd): seq<Cell> {
    [Cell(0, Attached(fd))] + Plain(seq(FD_BYTES - 1, _ => 0))
  }

  function ModuleCells(m: Module, w: nat): seq<Cell> {
    StringCells(m.name, w) + FdCells(m.fd)
  }

  function ModulesCells(ms: seq<Module>, w: nat): seq<Cell> {
    if ms == [] then [] else ModuleCells(ms[0], w) + ModulesCells(ms[1..], w)
  }

  function ReplyCells(ms: seq<Module>, w: nat): seq<Cell> {
    UsizeCells(|ms|, w) + ModulesCells(ms, w)
  }

  // ---------- what the client makes of it ----------

  /** A value and the cells behind it; Short when the stream ends before. */
  datatype Decoded<T> = Short | Decoded(value: T, rest: seq<Cell>)

  /** A module as received: the descriptor is -1 if none came. */
  datatype Received = Received(name: seq<Byte>, fd: int)

  function DecodeUsize(cells: seq<Cell>, w: nat): Decoded<nat> {
    if |cells| < w then Short else Decoded(Decode(BytesOf(cells[..w])), cells[w..])
  }

  function UpToNul(text: seq<Byte>): (t: seq<Byte>)
    ensures t <= text && 0 !in t && (|t| < |text| ==> text[|t|] == 0)
    ensures t == text <==> 0 !in text
  {
    if text == [] || text[0] == 0 then [] else [text[0]] + UpToNul(text[1..])
  }

  /** The client keeps strings up to their first NUL. */
  function DecodeString(cells: seq<Cell>, w: nat): Decoded<seq<Byte>> {
    match DecodeUsize(cells, w)
    case Short => Short
    case Decoded(n, rest) => if |rest| < n then Short else Decoded(UpToNul(BytesOf(rest[..n])), rest[n..])
  }

  function FirstFd(cells: seq<Cell>): int {
    if cells == [] then -1 else if cells[0].attached.Attached? then cells[0].attached.fd else FirstFd(cells[1..])
  }

  function DecodeFd(cells: seq<Cell>): Decoded<int> {
    if |cells| < FD_BYTES then Short else Decoded(FirstFd(cells[..FD_BYTES]), cells[FD_BYTES..])
  }

  function DecodeModule(cells: seq<Cell>, w: nat): Decoded<Received> {
    match DecodeString(cells, w)
    case Short => Short
    case Decoded(name, rest) =>
      match DecodeFd(rest)
      case Short => Short
      case Decoded(fd, rest') => Decoded(Received(name, fd), rest')
  }

  // ---------- the framing round trip ----------

  predicate Fits(m: Module, w: nat) {
    |m.name| < Range(w)
  }

  function AsReceived(ms: seq<Module>): (r: seq<Received>)
    ensures |r| == |ms|
  {
    seq(|ms|, i requires 0 <= i < |ms| => Received(UpToNul(ms[i].name), ms[i].fd))
  }

  lemma Parts(a: seq<Cell>, b: seq<Cell>)
    ensures (a + b)[..|a|] == a && (a + b)[|a|..] == b
  {
  }

  lemma UsizeRoundTrip(value: nat, w: nat, rest: seq<Cell>)
    requires value < Range(w)
    ensures DecodeUsize(UsizeCells(value, w) + rest, w) == Decoded(value, rest)
  {
    Parts(UsizeCells(value, w), rest);
    DecodeEncode(value, w);
  }

  lemma StringRoundTrip(text: seq<Byte>, w: nat, rest: seq<Cell>)
    requires |text| < Range(w)
    ensures DecodeString(StringCells(text, w) + rest, w) == Decoded(UpToNul(text), rest)
  {
    assert StringCells(text, w) + rest == UsizeCells(|text|, w) + (Plain(text) + rest);
    UsizeRoundTrip(|text|, w, Plain(text) + rest);
    Parts(Plain(text), rest);
  }

  lemma FdRoundTrip(fd: Fd, rest: seq<Cell>)
    ensures DecodeFd(FdCells(fd) + rest) == Decoded(fd, rest)
  {
    Parts(FdCells(fd), rest);
    assert FdCells(fd)[0] == Cell(0, Attached(fd));
  }

  lemma ModuleRoundTrip(m: Module, w: nat, rest: seq<Cell>)
    requires Fits(m, w)
    ensures DecodeModule(ModuleCells(m, w) + rest, w) == Decoded(Received(UpToNul(m.name), m.fd), rest)
  {
    assert ModuleCells(m, w) + rest == StringCells(m.name, w) + (FdCells(m.fd) + rest);
    StringRoundTrip(m.name, w, FdCells(m.fd) + rest);
    FdRoundTrip(m.fd, rest);
  }

  /** The stream holds the whole reply for these modules, and then `rest`. */
  ghost predicate IsReply(cells: seq<Cell>, ms: seq<Module>, w: nat, rest: seq<Cell>) {
    && cells == ReplyCells(ms, w) + rest
    && |ms| < Range(w) && forall m <- ms :: Fits(m, w)
  }

  ghost predicate IsList(cells: seq<Cell>, ms: seq<Module>, i: nat, w: nat, rest: seq<Cell>) {
    && i <= |ms| && cells == ModulesCells(ms[i..], w) + rest
    && forall m <- ms :: Fits(m, w)
  }

  lemma CountRoundTrip(cells: seq<Cell>, ms: seq<Module>, w: nat, rest: seq<Cell>)
    requires IsReply(cells, ms, w, rest)
    ensures var d := DecodeUsize(cells, w); d.Decoded? && d.value == |ms| && IsList(d.rest, ms, 0, w, rest)
  {
    assert cells == UsizeCells(|ms|, w) + (ModulesCells(ms, w) + rest);
    UsizeRoundTrip(|ms|, w, ModulesCells(ms, w) + rest);
    assert ms[0..] == ms;
  }

  lemma NextRoundTrip(cells: seq<Cell>, ms: seq<Module>, i: nat, w: nat, rest: seq<Cell>)
    requires IsList(cells, ms, i, w, rest) && i < |ms|
    ensures var d := DecodeModule(cells, w);
            d.Decoded? && d.value == Received(UpToNul(ms[i].name), ms[i].fd) && IsList(d.rest, ms, i + 1, w, rest)
  {
    assert ms[i..][1..] == ms[i + 1..];
    assert cells == ModuleCells(ms[i], w) + (ModulesCells(ms[i + 1..], w) + rest);
    ModuleRoundTrip(ms[i], w, ModulesCells(ms[i + 1..], w) + rest);
  }

  // ---------- a descriptor that is not taken ----------

  predicate ZerosAt(cells: seq<Cell>, n: nat) {
    n <= |cells| && forall k :: 0 <= k < n ==> cells[k].byte == 0
  }

  /** The stream is `z` zero bytes behind the i-th module. */
  ghost predicate Lags(cells: seq<Cell>, ms: seq<Module>, i: nat, w: nat, rest: seq<Cell>, z: nat) {
    && i <= |ms| && z >= FD_BYTES && z % 4 == 0 && ZerosAt(cells, z)
    && cells[z..] == ModulesCells(ms[i..], w) + rest
  }

  /** Names as the file system has them: without NUL, and shorter than 2^32. */
  ghost predicate Plausible(ms: seq<Module>) {
    forall m <- ms :: 0 !in m.name && |m.name| < 0x1_0000_0000
  }

  lemma FdCellsZero(fd: Fd)
    ensures |FdCells(fd)| == FD_BYTES && ZerosAt(FdCells(fd), FD_BYTES)
  {
  }

  /** Between the name of a module and its descriptor. */
  lemma NameRead(cells: seq<Cell>, ms: seq<Module>, i: nat, w: nat, rest: seq<Cell>)
    requires IsList(cells, ms, i, w, rest) && i < |ms|
    ensures var d := DecodeString(cells, w);
            && d.Decoded? && d.value == UpToNul(ms[i].name)
            && d.rest == FdCells(ms[i].fd) + (ModulesCells(ms[i + 1..], w) + rest)
            && Lags(d.rest, ms, i + 1, w, rest, FD_BYTES)
  {
    var behind := ModulesCells(ms[i + 1..], w) + rest;
    assert ms[i] in ms;
    assert ms[i..][1..] == ms[i + 1..];
    assert cells == StringCells(ms[i].name, w) + (FdCells(ms[i].fd) + behind);
    StringRoundTrip(ms[i].name, w, FdCells(ms[i].fd) + behind);
    FdCellsZero(ms[i].fd);
    Parts(FdCells(ms[i].fd), behind);
  }

  /** An empty name reads as empty even then, and the stream stays behind. */
  lemma LagsOnEmpty(cells: seq<Cell>, ms: seq<Module>, i: nat, w: nat, rest: seq<Cell>, z: nat)
    requires Lags(cells, ms, i, w, rest, z) && i < |ms| && ms[i].name == []
    ensures w <= |cells| && DecodeString(cells, w) == Decoded([], cells[w..])
    ensures Lags(cells[w..], ms, i + 1, w, rest, z + 4)
    ensures var d := DecodeFd(cells[w..]); d.Decoded? && Lags(d.rest, ms, i + 1, w, rest, z)
  {
    var behind := ModulesCells(ms[i + 1..], w) + rest;
    EmptyModuleZero(ms, i, w, rest, cells[z..], behind);
    assert forall k :: z <= k < z + w + 4 ==> cells[k] == cells[z..][k - z];
    assert ZerosAt(cells, z + w + 4);
    assert cells[z + w + 4..] == cells[z..][w + 4..] == behind;
    DecodeZeros(BytesOf(cells[..w]));
    assert cells[w..][z + 4..] == behind;
    assert cells[w..][FD_BYTES..][z..] == behind;
    assert ZerosAt(cells[w..], z + 4) && ZerosAt(cells[w..][FD_BYTES..], z);
  }

  lemma EmptyModuleZero(ms: seq<Module>, i: nat, w: nat, rest: seq<Cell>, cells: seq<Cell>, behind: seq<Cell>)
    requires i < |ms| && ms[i].name == [] && cells == ModulesCells(ms[i..], w) + rest
    requires behind == ModulesCells(ms[i + 1..], w) + rest
    ensures ZerosAt(cells, w + 4) && cells[w + 4..] == behind
  {
    assert ms[i..][1..] == ms[i + 1..];
    var one := ModuleCells(ms[i], w);
    ZeroModule(ms[i], w);
    assert cells == one + behind;
    Parts(one, behind);
  }

  lemma ZeroModule(m: Module, w: nat)
    requires m.name == []
    ensures |ModuleCells(m, w)| == w + 4 && ZerosAt(ModuleCells(m, w), w + 4)
  {
    FdCellsZero(m.fd);
    assert StringCells(m.name, w) == UsizeCells(0, w);
    forall k | 0 <= k < w ensures Encode(0, w)[k] == 0 {
      EncodeBeyond(0, w, 0, k);
    }
  }

  predicate ReadsAsNothing(cells: seq<Cell>, w: nat) {
    var d := DecodeUsize(cells, w);
    d.Decoded? && (d.value == 0 || (d.rest != [] && d.rest[0].byte == 0))
  }

  /** Any other name reads as nothing. */
  lemma LagsOnName(cells: seq<Cell>, ms: seq<Module>, i: nat, w: nat, rest: seq<Cell>, z: nat)
    requires Lags(cells, ms, i, w, rest, z) && i < |ms| && 0 < |ms[i].name| < 0x1_0000_0000 && IsUsize(w)
    ensures ReadsAsNothing(cells, w)
  {
    if z >= w {
      ZeroLength(cells, w);
    } else {
      assert w == 8 && z == 4;
      LagsNarrowly(cells, ms, i, rest);
    }
  }

  lemma LagsNarrowly(cells: seq<Cell>, ms: seq<Module>, i: nat, rest: seq<Cell>)
    requires i < |ms| && 0 < |ms[i].name| < 0x1_0000_0000 && |cells| >= 4
    requires cells[4..] == ModulesCells(ms[i..], 8) + rest
    ensures ReadsAsNothing(cells, 8)
  {
    var behind := cells[4..];
    LengthTopZero(ms, i, rest, behind);
    assert cells[8] == behind[4];
    ZeroAhead(cells);
  }

  lemma ZeroLength(cells: seq<Cell>, w: nat)
    requires ZerosAt(cells, w)
    ensures ReadsAsNothing(cells, w)
  {
    DecodeZeros(BytesOf(cells[..w]));
  }

  lemma ZeroAhead(cells: seq<Cell>)
    requires |cells| > 8 && cells[8].byte == 0
    ensures ReadsAsNothing(cells, 8)
  {
    assert cells[8..][0] == cells[8];
  }

  lemma LengthTopZero(ms: seq<Module>, i: nat, rest: seq<Cell>, cells: seq<Cell>)
    requires i < |ms| && 0 < |ms[i].name| < 0x1_0000_0000 && cells == ModulesCells(ms[i..], 8) + rest
    ensures |cells| > 8 && cells[4].byte == 0
  {
    var n := |ms[i].name|;
    assert Range(4) == 0x1_0000_0000;
    EncodeBeyond(n, 8, 4, 4);
    assert ModuleCells(ms[i], 8)[4] == UsizeCells(n, 8)[4];
    assert ModulesCells(ms[i..], 8)[4] == ModuleCells(ms[i], 8)[4];
  }

  predicate IsUsize(w: nat) {
    w == 4 || w == 8
  }

  /** One interruption where the only module's descriptor is to be taken: the name is right, the
      descriptor is whatever the buffer held, and its bytes are still in the stream. */
  lemma OneInterruption(m: Module, w: nat, rest: seq<Cell>)
    requires 1 < Range(w) && Fits(m, w)
    ensures var count := DecodeUsize(ReplyCells([m], w) + rest, w);
            && count.Decoded? && count.value == 1
            && var name := DecodeString(count.rest, w);
            && name == Decoded(UpToNul(m.name), FdCells(m.fd) + rest) && name.rest != rest
  {
    var cells := ReplyCells([m], w) + rest;
    CountRoundTrip(cells, [m], w, rest);
    var count := DecodeUsize(cells, w);
    NameRead(count.rest, [m], 0, w, rest);
    assert [m][1..] == [] && ModulesCells([], w) + rest == rest;
    assert |FdCells(m.fd) + rest| == FD_BYTES + |rest|;
  }

  // ---------- the client ----------

  /** A connected stream: what there is to read until the peer closes it, what was written, and how
      many more times a call will be interrupted. */
  class Socket {
    var incoming: seq<Cell>
    var outgoing: seq<Cell>
    var interrupts: nat
    /** Whether no call that writes can fail. */
    const reliable: bool

    constructor (incoming: seq<Cell>, interrupts: nat, reliable: bool)
      ensures this.incoming == incoming && outgoing == [] && this.interrupts == interrupts && this.reliable == reliable
    {
      this.incoming, this.outgoing, this.interrupts, this.reliable := incoming, [], interrupts, reliable;
    }

    /** -1 for an interruption, 0 at the end of the stream, or the number of bytes, which may be
        fewer than were asked for. Descriptors that come with them are lost. */
    method Read(count: nat) returns (ret: int, bytes: seq<Byte>)
      modifies this`incoming, this`interrupts
      ensures ret == -1 ==> incoming == old(incoming) && bytes == [] && interrupts < old(interrupts)
      ensures ret != -1 ==> 0 <= ret <= count && ret <= |old(incoming)| && interrupts == old(interrupts)
      ensures ret == 0 ==> count == 0 || old(incoming) == []
      ensures ret != -1 ==> bytes == BytesOf(old(incoming)[..ret]) && incoming == old(incoming)[ret..]
    {
      var interrupted: bool := *;
      if interrupted && interrupts > 0 {
        interrupts := interrupts - 1;
        return -1, [];
      }
      var most := if count < |incoming| then count else |incoming|;
      var n: nat := most;
      if most > 0 {
        n :| 1 <= n <= most;
      }
      ret, bytes, incoming := n, BytesOf(incoming[..n]), incoming[n..];
    }

    /** -1 for an interruption, -2 for any other error, or how many bytes were taken. */
    method Write(bytes: seq<Byte>) returns (ret: int, ghost failed: bool)
      modifies this`outgoing, this`interrupts
      ensures -2 <= ret <= |bytes| && (failed <==> ret == -2) && (reliable ==> !failed)
      ensures interrupts <= old(interrupts)
      ensures ret < 0 ==> outgoing == old(outgoing)
      ensures ret == -1 ==> interrupts < old(interrupts)
      ensures ret >= 0 ==> interrupts == old(interrupts) && (ret == 0 ==> bytes == [])
      ensures ret >= 0 ==> outgoing == old(outgoing) + Plain(bytes[..ret])
    {
      var fails: bool := *;
      if fails && !reliable {
        return -2, true;
      }
      var interrupted: bool := *;
      if interrupted && interrupts > 0 {
        interrupts := interrupts - 1;
        return -1, false;
      }
      var n: nat := |bytes|;
      if n > 0 {
        n :| 1 <= n <= |bytes|;
      }
      outgoing := outgoing + Plain(bytes[..n]);
      ret, failed := n, false;
    }

    /** Reads until it has `count` bytes or the stream ends. */
    method XRead(count: nat) returns (bytes: seq<Byte>)
      modifies this`incoming, this`interrupts
      ensures var n := if count < |old(incoming)| then count else |old(incoming)|;
              bytes == BytesOf(old(incoming)[..n]) && incoming == old(incoming)[n..]
      ensures interrupts <= old(interrupts)
    {
      ghost var all := incoming;
      bytes := [];
      var running := true;
      while running
        invariant |bytes| <= count && |bytes| <= |all|
        invariant bytes == BytesOf(all[..|bytes|]) && incoming == all[|bytes|..]
        invariant !running ==> |bytes| == count || incoming == []
        invariant interrupts <= old(interrupts)
        decreases running, count - |bytes|, interrupts
      {
        ghost var was := |bytes|;
        var ret, more := Read(count - |bytes|);
        if ret >= 0 {
          bytes := bytes + more;
          assert all[was..][..ret] == all[was..was + ret] && all[..was] + all[was..was + ret] == all[..was + ret];
          assert bytes == BytesOf(all[..was]) + BytesOf(all[was..was + ret]) == BytesOf(all[..was + ret]);
        }
        running := |bytes| != count && ret != 0;
      }
    }

    /** Writes until all is written or there is an error. */
    method XWrite(bytes: seq<Byte>) returns (written: nat, ghost failed: bool)
      modifies this`outgoing, this`interrupts
      ensures written <= |bytes| && outgoing == old(outgoing) + Plain(bytes[..written])
      ensures !failed ==> written == |bytes|
      ensures (reliable ==> !failed) && interrupts <= old(interrupts)
      ensures failed && bytes != [] ==> written < |bytes|
    {
      written, failed := 0, false;
      var running := true;
      while running
        invariant written <= |bytes| && outgoing == old(outgoing) + Plain(bytes[..written]) && !failed
        invariant interrupts <= old(interrupts)
        invariant if running then written < |bytes| || bytes == [] else written == |bytes|
        decreases running, |bytes| - written, interrupts
      {
        var ret;
        ret, failed := Write(bytes[written..]);
        if ret == -2 {
          return;
        }
        if ret >= 0 {
          assert bytes[..written] + bytes[written..][..ret] == bytes[..written + ret];
          assert Plain(bytes[..written]) + Plain(bytes[written..][..ret]) == Plain(bytes[..written + ret]);
          written := written + ret;
        }
        running := written != |bytes| && ret != 0;
      }
    }

    method ReadUsize(w: nat) returns (value: nat)
      modifies this`incoming, this`interrupts
      ensures var d := DecodeUsize(old(incoming), w);
              if d.Decoded? then value == d.value && incoming == d.rest else value == 0 && incoming == []
      ensures interrupts <= old(interrupts)
    {
      var bytes := XRead(w);
      value := if |bytes| == w then Decode(bytes) else 0;
    }

    /** Whether all of it was written; otherwise some of it was, or none, and a call failed. */
    method WriteAll(bytes: seq<Byte>) returns (ok: bool, ghost failed: bool)
      modifies this`outgoing, this`interrupts
      ensures WritesPart(old(outgoing), outgoing, Plain(bytes), ok) && (ok <==> !failed)
      ensures (reliable ==> ok) && interrupts <= old(interrupts)
    {
      if bytes == [] {
        return true, false;
      }
      var n;
      n, failed := XWrite(bytes);
      ok := n == |bytes|;
      assert bytes[..|bytes|] == bytes;
      PlainPrefix(bytes, n);
      PartWritten(old(outgoing), Plain(bytes[..n]), Plain(bytes));
    }

    method SendFd(fd: Fd) returns (ok: bool, ghost failed: bool)
      modifies this`outgoing
      ensures outgoing == old(outgoing) + (if ok then FdCells(fd) else []) && (ok <==> !failed) && (reliable ==> ok)
    {
      ok := *;
      ok := ok || reliable;
      failed := !ok;
      outgoing := outgoing + if ok then FdCells(fd) else [];
    }

    /** A name that is cut short is followed by whatever the buffer held. */
    method ReadString(w: nat) returns (text: seq<Byte>)
      modifies this`incoming, this`interrupts
      ensures var d := DecodeString(old(incoming), w); d.Decoded? ==> text == d.value && incoming == d.rest
      ensures ReadsAsNothing(old(incoming), w) ==> text == []
      ensures interrupts <= old(interrupts)
    {
      var n := ReadUsize(w);
      ghost var rest := incoming;
      var bytes := XRead(n);
      var garbage: seq<Byte> := [];
      if |bytes| < n {
        assert |seq(n - |bytes|, _ => 0 as Byte)| == n - |bytes|;
        garbage :| |garbage| == n - |bytes|;
      }
      text := UpToNul(bytes + garbage);
      assert bytes + [] == bytes;
      assert n > 0 && rest != [] ==> (bytes + garbage)[0] == rest[0].byte;
    }

    /** There is no second try: when the call is interrupted, `fd` is whatever the buffer held, and
        the bytes that carry the descriptor are not taken. */
    method RecvFd() returns (fd: int, ghost missed: bool)
      modifies this`incoming, this`interrupts
      ensures missed ==> incoming == old(incoming) && interrupts < old(interrupts)
      ensures !missed ==> interrupts == old(interrupts)
      ensures !missed ==> var d := DecodeFd(old(incoming)); d.Decoded? ==> fd == d.value && incoming == d.rest
    {
      var interrupted: bool := *;
      if interrupted && interrupts > 0 {
        interrupts := interrupts - 1;
        fd, missed := *, true;
        return;
      }
      var n := if |incoming| < FD_BYTES then |incoming| else FD_BYTES;
      fd, missed := FirstFd(incoming[..n]), false;
      incoming := incoming[n..];
    }

    /** One module of a reply. */
    method ReadModule(w: nat) returns (m: Received, ghost missed: bool)
      modifies this`incoming, this`interrupts
      ensures !missed ==> var d := DecodeModule(old(incoming), w); d.Decoded? ==> m == d.value && incoming == d.rest
      ensures missed ==>
                var d := DecodeString(old(incoming), w); d.Decoded? ==> m.name == d.value && incoming == d.rest
      ensures ReadsAsNothing(old(incoming), w) ==> m.name == []
      ensures interrupts <= old(interrupts) && (missed ==> interrupts < old(interrupts))
    {
      var name := ReadString(w);
      var fd;
      fd, missed := RecvFd();
      m := Received(name, fd);
    }

    /** The i-th module of a reply the stream is in step with. */
    method ReadNext(w: nat, ghost ms: seq<Module>, ghost i: nat, ghost rest: seq<Cell>)
      returns (m: Received, ghost missed: bool)
      modifies this`incoming, this`interrupts
      ensures IsList(old(incoming), ms, i, w, rest) && i < |ms| && !missed ==>
                m == AsReceived(ms)[i] && IsList(incoming, ms, i + 1, w, rest)
      ensures IsList(old(incoming), ms, i, w, rest) && i < |ms| && missed ==> Lags(incoming, ms, i + 1, w, rest, FD_BYTES)
      ensures forall z: nat :: Lags(old(incoming), ms, i, w, rest, z) && i < |ms| && Plausible(ms) && IsUsize(w) ==>
                m != AsReceived(ms)[i] || Lags(incoming, ms, i + 1, w, rest, if missed then z + 4 else z)
      ensures interrupts <= old(interrupts) && (missed ==> interrupts < old(interrupts))
    {
      ghost var before := incoming;
      if IsList(incoming, ms, i, w, rest) && i < |ms| {
        NextRoundTrip(incoming, ms, i, w, rest);
        NameRead(incoming, ms, i, w, rest);
      }
      m, missed := ReadModule(w);
      forall z: nat | Lags(before, ms, i, w, rest, z) && i < |ms| && Plausible(ms) && IsUsize(w)
        ensures m != AsReceived(ms)[i] || Lags(incoming, ms, i + 1, w, rest, if missed then z + 4 else z)
      {
        assert ms[i] in ms;
        if ms[i].name == [] {
          LagsOnEmpty(before, ms, i, w, rest, z);
        } else {
          LagsOnName(before, ms, i, w, rest, z);
        }
      }
    }

    /** One more module, behind those that were read. */
    method ReadMore(w: nat, before: seq<Received>, ghost missed: bool, ghost z: nat,
                    ghost ms: seq<Module>, ghost i: nat, ghost rest: seq<Cell>)
      returns (modules: seq<Received>, ghost missed': bool, ghost z': nat)
      requires IsUsize(w)
      modifies this`incoming, this`interrupts
      ensures |modules| == |before| + 1
      ensures InStep(before, old(incoming), ms, i, w, rest, missed, z) && i < |ms| ==>
                InStep(modules, incoming, ms, i + 1, w, rest, missed', z')
      ensures missed ==> missed'
      ensures interrupts <= old(interrupts) && (missed' && !missed ==> interrupts < old(interrupts))
    {
      var m;
      ghost var now;
      m, now := ReadNext(w, ms, i, rest);
      modules := before + [m];
      missed' := missed || now;
      z' := if !missed then FD_BYTES else if now then z + 4 else z;
      if |before| == i < |ms| {
        if before == AsReceived(ms)[..i] {
          assert m == AsReceived(ms)[i] ==> modules == AsReceived(ms)[..i + 1];
          if m != AsReceived(ms)[i] {
            assert modules[i] != AsReceived(ms)[..i + 1][i];
          }
        } else {
          DifferentStill(before, AsReceived(ms), i, m);
        }
      }
    }

    /** Asks for the modules and reads the reply. Unless a call that takes a descriptor is
        interrupted, that gives every module in order with its own descriptor, and takes not a byte
        more; and if one is, it does not, for names the file system can have. */
    method ReadModules(action: Byte, w: nat, ghost ms: seq<Module>, ghost rest: seq<Cell>)
      returns (modules: seq<Received>, ghost missed: bool, ghost failed: bool)
      requires IsUsize(w)
      modifies this
      ensures outgoing == old(outgoing) + (if failed then [] else Plain([action])) && (reliable ==> !failed)
      ensures IsReply(old(incoming), ms, w, rest) && !missed ==> modules == AsReceived(ms) && incoming == rest
      ensures IsReply(old(incoming), ms, w, rest) && Plausible(ms) ==>
                (modules == AsReceived(ms) && incoming == rest <==> !missed)
      ensures interrupts <= old(interrupts) && (missed ==> interrupts < old(interrupts))
    {
      var sent;
      sent, failed := WriteAll([action]);
      OneByte(old(outgoing), outgoing, action, sent);
      modules, missed := ReadReply(w, ms, rest);
    }

    method ReadReply(w: nat, ghost ms: seq<Module>, ghost rest: seq<Cell>) returns (modules: seq<Received>, ghost missed: bool)
      requires IsUsize(w)
      modifies this`incoming, this`interrupts
      ensures IsReply(old(incoming), ms, w, rest) && !missed ==> modules == AsReceived(ms) && incoming == rest
      ensures IsReply(old(incoming), ms, w, rest) && Plausible(ms) ==>
                (modules == AsReceived(ms) && incoming == rest <==> !missed)
      ensures interrupts <= old(interrupts) && (missed ==> interrupts < old(interrupts))
    {
      ghost var good := IsReply(incoming, ms, w, rest);
      if good {
        CountRoundTrip(incoming, ms, w, rest);
      }
      modules, missed := [], false;
      var len := ReadUsize(w);
      var i := 0;
      ghost var z: nat := FD_BYTES;
      ghost var start := interrupts;
      while i < len
        invariant interrupts <= start && (missed ==> interrupts < start)
        invariant 0 <= i <= len && (good ==> len == |ms| && InStep(modules, incoming, ms, i, w, rest, missed, z))
      {
        modules, missed, z := ReadMore(w, modules, missed, z, ms, i, rest);
        i := i + 1;
      }
      if good {
        AtTheEnd(modules, incoming, ms, w, rest, missed, z);
      }
    }
  }

  /** What was read of i modules: as long as nothing was missed it is right and the stream is in
      step; after that it is wrong, or the stream lags. */
  ghost predicate InStep(modules: seq<Received>, cells: seq<Cell>, ms: seq<Module>, i: nat, w: nat, rest: seq<Cell>,
                         missed: bool, z: nat)
  {
    && |modules| == i <= |ms|
    && (!missed ==> modules == AsReceived(ms)[..i] && IsList(cells, ms, i, w, rest))
    && (missed && Plausible(ms) ==> modules != AsReceived(ms)[..i] || Lags(cells, ms, i, w, rest, z))
  }

  lemma AtTheEnd(modules: seq<Received>, cells: seq<Cell>, ms: seq<Module>, w: nat, rest: seq<Cell>, missed: bool, z: nat)
    requires InStep(modules, cells, ms, |ms|, w, rest, missed, z)
    ensures !missed ==> modules == AsReceived(ms) && cells == rest
    ensures Plausible(ms) ==> (modules == AsReceived(ms) && cells == rest <==> !missed)
  {
    assert ModulesCells(ms[|ms|..], w) + rest == rest;
    assert AsReceived(ms)[..|ms|] == AsReceived(ms);
    if Lags(cells, ms, |ms|, w, rest, z) {
      assert |cells| == z + |rest|;
    }
  }

  lemma DifferentStill(a: seq<Received>, b: seq<Received>, i: nat, m: Received)
    requires |a| == i < |b| && a != b[..i]
    ensures a + [m] != b[..i + 1]
  {
    var k :| 0 <= k < i && a[k] != b[k];
    assert (a + [m])[k] != b[..i + 1][k];
  }

  /** What a write leaves: all of it, or, when it does not work, less. */
  predicate WritesPart(before: seq<Cell>, after: seq<Cell>, cells: seq<Cell>, ok: bool) {
    before <= after <= before + cells && (ok <==> after == before + cells)
  }

  lemma PlainPrefix(bytes: seq<Byte>, n: nat)
    requires n <= |bytes|
    ensures Plain(bytes[..n]) == Plain(bytes)[..n]
  {
  }

  lemma PartWritten(before: seq<Cell>, part: seq<Cell>, cells: seq<Cell>)
    requires part <= cells
    ensures before <= before + part <= before + cells
  {
  }

  lemma OneByte(before: seq<Cell>, after: seq<Cell>, b: Byte, ok: bool)
    requires WritesPart(before, after, Plain([b]), ok)
    ensures after == before + if ok then Plain([b]) else []
  {
    if !ok {
      assert |after| < |before| + 1;
    }
  }

  // ---------- the daemon's handler ----------

  datatype Refresh = None | Publish(modules: seq<Module>)

  class AppContext {
    var modules: seq<Module>

    constructor (modules: seq<Module>)
      ensures this.modules == modules
    {
      this.modules := modules;
    }

    /** What another request may do between two writes. */
    method Interleave(r: Refresh)
      modifies this
    {
      if r.Publish? {
        modules := r.modules;
      }
    }
  }

  lemma ThenPart(before: seq<Cell>, between: seq<Cell>, after: seq<Cell>, a: seq<Cell>, b: seq<Cell>, ok: bool)
    requires between == before + a && WritesPart(between, after, b, ok)
    ensures WritesPart(before, after, a + b, ok)
  {
    assert before + a + b == before + (a + b);
  }

  lemma PartOfMore(before: seq<Cell>, after: seq<Cell>, a: seq<Cell>, b: seq<Cell>)
    requires WritesPart(before, after, a, false)
    ensures WritesPart(before, after, a + b, false)
  {
    assert before + (a + b) == before + a + b;
  }

  method WriteString(stream: Socket, text: seq<Byte>, w: nat) returns (ok: bool, ghost failed: bool)
    modifies stream`outgoing, stream`interrupts
    ensures WritesPart(old(stream.outgoing), stream.outgoing, StringCells(text, w), ok) && (ok <==> !failed) && (stream.reliable ==> ok)
  {
    ok, failed := stream.WriteAll(Encode(|text|, w));
    if !ok {
      PartOfMore(old(stream.outgoing), stream.outgoing, UsizeCells(|text|, w), Plain(text));
      return;
    }
    ghost var between := stream.outgoing;
    ok, failed := stream.WriteAll(text);
    ThenPart(old(stream.outgoing), between, stream.outgoing, UsizeCells(|text|, w), Plain(text), ok);
  }

  method WriteModule(stream: Socket, m: Module, w: nat) returns (ok: bool, ghost failed: bool)
    modifies stream`outgoing, stream`interrupts
    ensures WritesPart(old(stream.outgoing), stream.outgoing, ModuleCells(m, w), ok) && (ok <==> !failed) && (stream.reliable ==> ok)
  {
    ok, failed := WriteString(stream, m.name, w);
    if !ok {
      PartOfMore(old(stream.outgoing), stream.outgoing, StringCells(m.name, w), FdCells(m.fd));
      return;
    }
    ghost var between := stream.outgoing;
    ok, failed := stream.SendFd(m.fd);
    ThenPart(old(stream.outgoing), between, stream.outgoing, StringCells(m.name, w), FdCells(m.fd), ok);
  }

  /** `refreshes` says what other requests do while the reply is written: before the count, and
      before each module. A write that fails ends the reply. */
  method HandleReadModules(context: AppContext, stream: Socket, w: nat, refreshes: nat -> Refresh)
    returns (ok: bool, ghost failed: bool)
    modifies context, stream`outgoing, stream`interrupts
    ensures WritesPart(old(stream.outgoing), stream.outgoing, ReplyCells(old(context.modules), w), ok)
    ensures (ok <==> !failed) && (stream.reliable ==> ok)
  {
    var modules := context.modules;
    context.Interleave(refreshes(0));
    ghost var before := stream.outgoing;
    ok, failed := stream.WriteAll(Encode(|modules|, w));
    if !ok {
      PartOfMore(before, stream.outgoing, UsizeCells(|modules|, w), ModulesCells(modules, w));
      return;
    }
    ghost var done := UsizeCells(|modules|, w);
    assert modules[0..] == modules;
    for i := 0 to |modules|
      invariant ok && !failed && stream.outgoing == before + done && done + ModulesCells(modules[i..], w) == ReplyCells(modules, w)
    {
      context.Interleave(refreshes(i + 1));
      ghost var between, one := stream.outgoing, ModuleCells(modules[i], w);
      NextCells(done, modules, i, w);
      ok, failed := WriteModule(stream, modules[i], w);
      ThenPart(before, between, stream.outgoing, done, one, ok);
      if !ok {
        PartOfMore(before, stream.outgoing, done + one, ModulesCells(modules[i + 1..], w));
        return;
      }
      done := done + one;
    }
    assert done + [] == done;
  }

  lemma NextCells(written: seq<Cell>, ms: seq<Module>, i: nat, w: nat)
    requires i < |ms|
    ensures written + ModulesCells(ms[i..], w) == written + ModuleCells(ms[i], w) + ModulesCells(ms[i + 1..], w)
  {
    assert ms[i..][1..] == ms[i + 1..];
  }

  /** One connection, both ends: if the daemon writes its whole reply and no call that takes a
      descriptor is interrupted, the client has the names and descriptors of the snapshot that was
      published when the daemon began, whatever was published since. */
  method Exchange(context: AppContext, server: Socket, client: Socket, action: Byte, w: nat, refreshes: nat -> Refresh)
    returns (served: bool, modules: seq<Received>, ghost missed: bool, ghost failed: bool)
    requires server != client && server.outgoing == [] && IsUsize(w) && |context.modules| < Range(w)
    requires Plausible(context.modules) && forall m <- context.modules :: Fits(m, w)
    modifies context, server, client
    ensures (served <==> !failed) && (server.reliable ==> served) && (missed ==> old(client.interrupts) > 0)
    ensures served ==>
              var ms := old(context.modules);
              (!missed <==> modules == AsReceived(ms) && client.incoming == [])
              && (!missed ==> |modules| == |ms| && forall i :: 0 <= i < |ms| ==> modules[i] == Received(ms[i].name, ms[i].fd))
  {
    ghost var ms := context.modules;
    served, failed := HandleReadModules(context, server, w, refreshes);
    client.incoming := server.outgoing;
    if served {
      assert [] + ReplyCells(ms, w) + [] == ReplyCells(ms, w);
    }
    ghost var unsent;
    modules, missed, unsent := client.ReadModules(action, w, ms, []);
    if served && !missed {
      forall i | 0 <= i < |ms| ensures modules[i] == Received(ms[i].name, ms[i].fd) {
        assert ms[i] in ms;
      }
    }
  }

  // ---------- module ids ----------

  /** A module whose library could be loaded, with its place in the list. */
  datatype Loaded = Loaded(id: nat, source: Received)

  /** Loads the libraries; `loads` says which can be loaded and have an entry point. */
  method RunModulesPre(ms: seq<Received>, loads: nat -> bool) returns (modules: seq<Loaded>)
    ensures forall k :: 0 <= k < |modules| ==>
              modules[k].id < |ms| && loads(modules[k].id) && modules[k].source == ms[modules[k].id]
    ensures forall k, l :: 0 <= k < l < |modules| ==> modules[k].id < modules[l].id
    ensures forall i: nat :: i < |ms| && loads(i) ==> Loaded(i, ms[i]) in modules
  {
    modules := [];
    for i := 0 to |ms|
      invariant forall k :: 0 <= k < |modules| ==>
                  modules[k].id < i && loads(modules[k].id) && modules[k].source == ms[modules[k].id]
      invariant forall k, l :: 0 <= k < l < |modules| ==> modules[k].id < modules[l].id
      invariant forall j: nat :: j < i && loads(j) ==> Loaded(j, ms[j]) in modules
    {
      if loads(i) {
        modules := modules + [Loaded(i, ms[i])];
      }
    }
  }
}
