/**
 The daemon's modules and their companion processes, as concurrent handlers see them. Each handler
 runs in steps that are atomic because of the locks it takes; the steps of different handlers
 interleave in any way.
 */
module Companions {
  type SnapId = nat
  type ReqId = nat
  type Sock = nat
  type Child = nat

  datatype Slot = Empty | Full(sock: Sock)

  datatype Lock = Free | HeldBy(holder: ReqId)

  /** A module of a snapshot. */
  datatype Place = Place(snap: SnapId, index: nat)

  /** Its companion socket and the lock on that. */
  datatype Cell = Cell(slot: Slot, lock: Lock)

  /** How far a request for a companion is: it waits for the slot's lock, has it, has removed a
      dead companion, waits for the answer of one it spawned, or answers its client. */
  datatype Phase = Waiting | Locked | Checked | Handshake(sock: Sock) | Sending

  /** A handler that holds a snapshot: a companion request for a module, a zygote restart that has
      come to a module, or one that only reads. */
  datatype Request =
    | Companion(place: Place, phase: Phase)
    | Restart(at: Place)
    | Reader(of: SnapId)
  {
    function Snap(): SnapId {
      match this
      case Companion(p, _) => p.snap
      case Restart(p) => p.snap
      case Reader(x) => x
    }
  }

  /** `modules` has the module count of every snapshot that exists. `home` has the daemon's open
      companion sockets and the module each was made for. Sockets, children and snapshots are
      numbered in the order they are made. */
  datatype State =
    State(modules: map<SnapId, nat>, cells: map<Place, Cell>, current: SnapId, requests: map<ReqId, Request>,
          home: map<Sock, Place>, pending: seq<Child>, reaped: seq<Child>, sockets: nat, children: nat, snaps: nat)

  /** What the world answers a step: whether the companion's socket is alive, whether spawning
      works, and whether the companion says it is ready. */
  datatype Answer = Answer(alive: bool, spawns: bool, ready: bool)

  datatype Event =
    | Connect(r: ReqId, index: nat)
    | BeginRestart(r: ReqId)
    | BeginRead(r: ReqId)
    | Advance(r: ReqId, answer: Answer)
    | Publish(count: nat)
    | Reap(exited: set<Child>)

  function FreshCells(x: SnapId, count: nat): map<Place, Cell> {
    map i: nat | i < count :: Place(x, i) := Cell(Empty, Free)
  }

  function Initial(count: nat): State {
    State(map[0 := count], FreshCells(0, count), 0, map[], map[], [], [], 0, 0, 1)
  }

  // ---------- the steps ----------

  predicate Holds(s: State, x: SnapId) {
    x == s.current || exists r <- s.requests :: s.requests[r].Snap() == x
  }

  /** A snapshot nobody holds any more goes away, and its companion sockets with it. */
  function Collected(s: State): State {
    s.(modules := map x | x in s.modules && Holds(s, x) :: s.modules[x],
       cells := map p | p in s.cells && Holds(s, p.snap) :: s.cells[p],
       home := map k | k in s.home && Holds(s, s.home[k].snap) :: s.home[k])
  }

  function WithSlot(s: State, p: Place, slot: Slot): State
    requires p in s.cells
  {
    s.(cells := s.cells[p := s.cells[p].(slot := slot)])
  }

  function WithLock(s: State, p: Place, lock: Lock): State
    requires p in s.cells
  {
    s.(cells := s.cells[p := s.cells[p].(lock := lock)])
  }

  function Closed(s: State, k: Sock): State {
    s.(home := s.home - {k})
  }

  function Emptied(s: State, p: Place): State
    requires p in s.cells
  {
    match s.cells[p].slot
    case Empty => s
    case Full(k) => Closed(WithSlot(s, p, Empty), k)
  }

  function Entered(s: State, r: ReqId, q: Request): State {
    s.(requests := s.requests[r := q])
  }

  function Finished(s: State, r: ReqId): State {
    Collected(s.(requests := s.requests - {r}))
  }

  /** A companion is spawned: a socket to it, and a child to wait for. */
  function Spawned(s: State, r: ReqId, p: Place): State {
    Entered(s, r, Companion(p, Handshake(s.sockets)))
      .(home := s.home[s.sockets := p], sockets := s.sockets + 1,
        pending := s.pending + [s.children], children := s.children + 1)
  }

  function AdvanceCompanion(s: State, r: ReqId, p: Place, phase: Phase, a: Answer): State
    requires p in s.cells
  {
    match phase
    case Waiting =>
      if s.cells[p].lock.Free? then Entered(WithLock(s, p, HeldBy(r)), r, Companion(p, Locked)) else s
    case Locked => Entered(if a.alive then s else Emptied(s, p), r, Companion(p, Checked))
    case Checked =>
      if s.cells[p].slot.Empty? && a.spawns then Spawned(s, r, p) else Entered(s, r, Companion(p, Sending))
    case Handshake(k) => Entered(if a.ready then WithSlot(s, p, Full(k)) else Closed(s, k), r, Companion(p, Sending))
    case Sending => Finished(WithLock(s, p, Free), r)
  }

  function AdvanceRestart(s: State, r: ReqId, p: Place): State {
    if p !in s.cells then Finished(s, r)
    else if s.cells[p].lock.Free? then Entered(Emptied(s, p), r, Restart(Place(p.snap, p.index + 1)))
    else s
  }

  function Advanced(s: State, r: ReqId, a: Answer): State
    requires r in s.requests && WellFormed(s)
  {
    match s.requests[r]
    case Companion(p, phase) => assert RequestOk(s, r); AdvanceCompanion(s, r, p, phase, a)
    case Restart(p) => AdvanceRestart(s, r, p)
    case Reader(_) => Finished(s, r)
  }

  /** The children that have exited, or that have not, in order. */
  function Chosen(pending: seq<Child>, exited: set<Child>, which: bool): seq<Child> {
    if pending == [] then []
    else
      var n := |pending| - 1;
      Chosen(pending[..n], exited, which) + if (pending[n] in exited) == which then [pending[n]] else []
  }

  /** A new snapshot becomes the current one. */
  function Published(s: State, count: nat): State {
    s.(modules := s.modules[s.snaps := count], cells := s.cells + FreshCells(s.snaps, count),
       current := s.snaps, snaps := s.snaps + 1)
  }

  /** The list of children still to be waited for. */
  class PendingCompanions {
    var children: seq<Child>

    constructor ()
      ensures children == []
    {
      children := [];
    }

    method Push(c: Child)
      modifies this
      ensures children == old(children) + [c]
    {
      children := children + [c];
    }

    /** Waits, without blocking, for each child and keeps those that have not exited. */
    method ReapCompanions(exited: set<Child>) returns (gone: seq<Child>)
      modifies this
      ensures children == Chosen(old(children), exited, false) && gone == Chosen(old(children), exited, true)
    {
      var pending := children;
      var kept: seq<Child> := [];
      gone := [];
      for i := 0 to |pending|
        invariant kept == Chosen(pending[..i], exited, false) && gone == Chosen(pending[..i], exited, true)
      {
        assert pending[..i + 1][..i] == pending[..i];
        if pending[i] in exited {
          gone := gone + [pending[i]];
        } else {
          kept := kept + [pending[i]];
        }
      }
      assert pending[..|pending|] == pending;
      children := kept;
    }
  }

  /** An event that cannot happen changes nothing. A companion request for a module the current
      snapshot does not have is answered at once. */
  function Step(s: State, e: Event): State
    requires WellFormed(s)
  {
    match e
    case Connect(r, index) =>
      if r in s.requests || Place(s.current, index) !in s.cells then s
      else Entered(s, r, Companion(Place(s.current, index), Waiting))
    case BeginRestart(r) => if r in s.requests then s else Entered(s, r, Restart(Place(s.current, 0)))
    case BeginRead(r) => if r in s.requests then s else Entered(s, r, Reader(s.current))
    case Advance(r, a) => if r in s.requests then Advanced(s, r, a) else s
    case Publish(count) =>
      Collected(Published(s, count))
    case Reap(exited) =>
      s.(pending := Chosen(s.pending, exited, false), reaped := s.reaped + Chosen(s.pending, exited, true))
  }

  // ---------- the invariant ----------

  /** A request holds a snapshot that exists; past waiting, it has the lock; and while it waits for
      its companion's answer the slot is empty. */
  predicate RequestOk(s: State, r: ReqId)
    requires r in s.requests
  {
    var q := s.requests[r];
    && q.Snap() in s.modules
    && (q.Companion? ==> q.place in s.cells)
    && (q.Companion? && !q.phase.Waiting? ==> s.cells[q.place].lock == HeldBy(r))
    && (q.Companion? && q.phase.Handshake? ==>
          q.phase.sock in s.home && s.home[q.phase.sock] == q.place && s.cells[q.place].slot.Empty?)
  }

  predicate Requested(s: State, r: ReqId, p: Place) {
    r in s.requests && s.requests[r].Companion? && s.requests[r].place == p && !s.requests[r].phase.Waiting?
  }

  /** A module belongs to its snapshot; its socket is open and was made for it; its lock is with a
      request for it. */
  predicate CellOk(s: State, p: Place)
    requires p in s.cells
  {
    && p.snap in s.modules && p.index < s.modules[p.snap]
    && (s.cells[p].slot.Full? ==> s.cells[p].slot.sock in s.home && s.home[s.cells[p].slot.sock] == p)
    && (s.cells[p].lock.HeldBy? ==> Requested(s, s.cells[p].lock.holder, p))
  }

  /** An open socket is in the slot it was made for, or with the request that holds that slot. */
  predicate SocketOk(s: State, k: Sock)
    requires k in s.home
  {
    var p := s.home[k];
    && k < s.sockets && p in s.cells
    && (s.cells[p].slot == Full(k)
        || (&& s.cells[p].lock.HeldBy? && s.cells[p].lock.holder in s.requests
            && s.requests[s.cells[p].lock.holder] == Companion(p, Handshake(k))))
  }

  predicate WellFormed(s: State) {
    s.current in s.modules && forall r <- s.requests :: RequestOk(s, r)
  }

  ghost predicate Complete(s: State) {
    forall x, i: nat :: x in s.modules && i < s.modules[x] ==> Place(x, i) in s.cells
  }

  predicate Linked(s: State) {
    && WellFormed(s)
    && (forall p <- s.cells :: CellOk(s, p))
    && (forall k <- s.home :: SocketOk(s, k))
    && forall x <- s.modules :: x < s.snaps
  }

  predicate Held(s: State) {
    forall x <- s.modules :: Holds(s, x)
  }

  function Count(children: seq<Child>, c: Child): nat {
    multiset(children)[c]
  }

  /** Every child that was spawned is either pending or was reaped, once. */
  ghost predicate ChildrenOk(s: State) {
    forall c: Child :: Count(s.pending, c) + Count(s.reaped, c) == if c < s.children then 1 else 0
  }

  ghost predicate Inv(s: State) {
    Linked(s) && Held(s) && Complete(s) && ChildrenOk(s)
  }

  // ---------- every step keeps it ----------

  lemma InitInv(count: nat)
    ensures Inv(Initial(count))
  {
  }

  lemma CollectedKeeps(s: State)
    requires Linked(s) && Complete(s) && ChildrenOk(s)
    ensures Inv(Collected(s))
  {
    var t := Collected(s);
    forall r | r in t.requests ensures RequestOk(t, r) {
      assert RequestOk(s, r) && Holds(s, s.requests[r].Snap());
    }
    forall p | p in t.cells ensures CellOk(t, p) {
      assert CellOk(s, p);
    }
    forall k | k in t.home ensures SocketOk(t, k) {
      assert SocketOk(s, k);
    }
    forall x | x in t.modules ensures Holds(t, x) {
      assert Holds(s, x);
    }
  }

  /** Whoever holds a snapshot still does after a request that holds it moves on. */
  lemma MovesOn(s: State, t: State, r: ReqId)
    requires r in s.requests && r in t.requests && t.requests == s.requests[r := t.requests[r]]
    requires t.requests[r].Snap() == s.requests[r].Snap() && t.current == s.current && t.modules == s.modules && Held(s)
    ensures Held(t)
  {
    forall x | x in t.modules ensures Holds(t, x) {
      assert Holds(s, x);
      if x != s.current {
        var u :| u in s.requests && s.requests[u].Snap() == x;
        assert u in t.requests && t.requests[u].Snap() == x;
      }
    }
  }

  lemma EmptiedKeeps(s: State, p: Place)
    requires Inv(s) && p in s.cells
    ensures Inv(Emptied(s, p)) && Emptied(s, p).requests == s.requests && Emptied(s, p).current == s.current
    ensures Emptied(s, p).cells.Keys == s.cells.Keys && Emptied(s, p).cells[p] == s.cells[p].(slot := Empty)
  {
    var t := Emptied(s, p);
    if s.cells[p].slot.Full? {
      assert CellOk(s, p);
      forall r | r in t.requests ensures RequestOk(t, r) {
        assert RequestOk(s, r);
      }
      forall o | o in t.cells ensures CellOk(t, o) {
        assert CellOk(s, o);
      }
      forall l | l in t.home ensures SocketOk(t, l) {
        assert SocketOk(s, l);
      }
      forall x | x in t.modules ensures Holds(t, x) {
        assert Holds(s, x);
      }
    }
  }

  lemma WaitingStep(s: State, r: ReqId, p: Place, a: Answer)
    requires Inv(s) && r in s.requests && s.requests[r] == Companion(p, Waiting)
    ensures p in s.cells && Inv(AdvanceCompanion(s, r, p, Waiting, a))
  {
    assert RequestOk(s, r);
    if s.cells[p].lock.Free? {
      var t := AdvanceCompanion(s, r, p, Waiting, a);
      forall u | u in t.requests ensures RequestOk(t, u) {
        assert RequestOk(s, u);
      }
      forall o | o in t.cells ensures CellOk(t, o) {
        assert CellOk(s, o);
      }
      forall k | k in t.home ensures SocketOk(t, k) {
        assert SocketOk(s, k);
      }
      MovesOn(s, t, r);
    }
  }

  /** A request that has the lock moves on without the slot or the sockets changing. */
  lemma PhaseKeeps(s: State, r: ReqId, p: Place, from: Phase, phase: Phase)
    requires Inv(s) && r in s.requests && s.requests[r] == Companion(p, from)
    requires !from.Waiting? && !from.Handshake? && !phase.Waiting? && !phase.Handshake?
    ensures Inv(Entered(s, r, Companion(p, phase)))
  {
    var t := Entered(s, r, Companion(p, phase));
    forall u | u in t.requests ensures RequestOk(t, u) {
      assert RequestOk(s, u) && RequestOk(s, r);
    }
    forall o | o in t.cells ensures CellOk(t, o) {
      assert CellOk(s, o);
    }
    forall k | k in t.home ensures SocketOk(t, k) {
      assert SocketOk(s, k);
    }
    MovesOn(s, t, r);
  }

  lemma LockedStep(s: State, r: ReqId, p: Place, a: Answer)
    requires Inv(s) && r in s.requests && s.requests[r] == Companion(p, Locked)
    ensures p in s.cells && Inv(AdvanceCompanion(s, r, p, Locked, a))
  {
    assert RequestOk(s, r);
    EmptiedKeeps(s, p);
    PhaseKeeps(if a.alive then s else Emptied(s, p), r, p, Locked, Checked);
  }

  lemma SpawnKeeps(s: State, r: ReqId, p: Place)
    requires Inv(s) && r in s.requests && s.requests[r] == Companion(p, Checked)
    requires p in s.cells && s.cells[p].slot.Empty?
    ensures Inv(Spawned(s, r, p))
  {
    var t := Spawned(s, r, p);
    assert RequestOk(s, r);
    forall k | k in s.home ensures k < s.sockets {
      assert SocketOk(s, k);
    }
    forall u | u in t.requests ensures RequestOk(t, u) {
      assert RequestOk(s, u);
    }
    forall o | o in t.cells ensures CellOk(t, o) {
      assert CellOk(s, o);
    }
    forall k | k in t.home ensures SocketOk(t, k) {
      assert k != s.sockets ==> SocketOk(s, k);
    }
    MovesOn(s, t, r);
  }

  lemma HandshakeStep(s: State, r: ReqId, p: Place, k: Sock, a: Answer)
    requires Inv(s) && r in s.requests && s.requests[r] == Companion(p, Handshake(k))
    ensures p in s.cells && Inv(AdvanceCompanion(s, r, p, Handshake(k), a))
  {
    assert RequestOk(s, r);
    var t := AdvanceCompanion(s, r, p, Handshake(k), a);
    forall u | u in t.requests ensures RequestOk(t, u) {
      assert RequestOk(s, u);
    }
    forall o | o in t.cells ensures CellOk(t, o) {
      assert CellOk(s, o);
    }
    forall l | l in t.home ensures SocketOk(t, l) {
      assert SocketOk(s, l);
    }
    MovesOn(s, t, r);
  }

  /** A request that has no lock, or gives it back, goes away. */
  lemma FinishKeeps(s: State, r: ReqId, t: State)
    requires Inv(s) && r in s.requests && (s.requests[r].Companion? ==> s.requests[r].phase.Sending?)
    requires s.requests[r].Companion? ==> s.requests[r].place in s.cells
    requires t == if s.requests[r].Companion? then WithLock(s, s.requests[r].place, Free) else s
    ensures Inv(Finished(t, r))
  {
    assert RequestOk(s, r);
    var v := t.(requests := t.requests - {r});
    forall u | u in v.requests ensures RequestOk(v, u) {
      assert RequestOk(s, u);
    }
    forall o | o in v.cells ensures CellOk(v, o) {
      assert CellOk(s, o);
    }
    forall k | k in v.home ensures SocketOk(v, k) {
      assert SocketOk(s, k);
    }
    CollectedKeeps(v);
  }

  lemma RestartStep(s: State, r: ReqId, p: Place)
    requires Inv(s) && r in s.requests && s.requests[r] == Restart(p)
    ensures Inv(AdvanceRestart(s, r, p))
  {
    if p !in s.cells {
      FinishKeeps(s, r, s);
    } else if s.cells[p].lock.Free? {
      EmptiedKeeps(s, p);
      ReplaceKeeps(Emptied(s, p), r, Restart(Place(p.snap, p.index + 1)));
    }
  }

  /** A new request, or one without a lock that stays without, for a snapshot that exists. */
  lemma ReplaceKeeps(s: State, r: ReqId, q: Request)
    requires Inv(s) && q.Snap() in s.modules
    requires r in s.requests ==> !s.requests[r].Companion? && s.requests[r].Snap() == q.Snap()
    requires q.Companion? ==> q.phase.Waiting? && q.place in s.cells
    ensures Inv(Entered(s, r, q))
  {
    var t := Entered(s, r, q);
    forall u | u in t.requests ensures RequestOk(t, u) {
      assert u != r ==> RequestOk(s, u);
    }
    forall o | o in t.cells ensures CellOk(t, o) {
      assert CellOk(s, o);
    }
    forall k | k in t.home ensures SocketOk(t, k) {
      assert SocketOk(s, k);
    }
    forall x | x in t.modules ensures Holds(t, x) {
      assert Holds(s, x);
      if x != s.current {
        var u :| u in s.requests && s.requests[u].Snap() == x;
        assert u in t.requests && t.requests[u].Snap() == x;
      }
    }
  }

  lemma AdvanceKeeps(s: State, r: ReqId, a: Answer)
    requires Inv(s) && r in s.requests
    ensures Inv(Advanced(s, r, a))
  {
    assert RequestOk(s, r);
    match s.requests[r]
    case Companion(p, phase) =>
      match phase {
        case Waiting => WaitingStep(s, r, p, a);
        case Locked => LockedStep(s, r, p, a);
        case Checked =>
          if s.cells[p].slot.Empty? && a.spawns {
            SpawnKeeps(s, r, p);
          } else {
            PhaseKeeps(s, r, p, Checked, Sending);
          }
        case Handshake(k) => HandshakeStep(s, r, p, k, a);
        case Sending => FinishKeeps(s, r, WithLock(s, p, Free));
      }
    case Restart(p) => RestartStep(s, r, p);
    case Reader(_) => FinishKeeps(s, r, s);
  }

  lemma PublishedLinked(s: State, count: nat, extra: map<Place, Cell>, t: State)
    requires Inv(s) && forall p :: p in extra <==> p.snap == s.snaps && p.index < count
    requires forall p <- extra :: extra[p] == Cell(Empty, Free)
    requires t == s.(modules := s.modules[s.snaps := count], cells := s.cells + extra, current := s.snaps, snaps := s.snaps + 1)
    ensures Linked(t) && Complete(t) && ChildrenOk(t)
  {
    forall p | p in s.cells ensures p !in extra && t.cells[p] == s.cells[p] {
      assert CellOk(s, p);
    }
    forall r | r in t.requests ensures RequestOk(t, r) {
      assert RequestOk(s, r);
    }
    forall p | p in t.cells ensures CellOk(t, p) {
      assert p !in extra ==> CellOk(s, p);
    }
    forall k | k in t.home ensures SocketOk(t, k) {
      assert SocketOk(s, k);
    }
  }

  lemma CountSnoc(cs: seq<Child>, x: Child, c: Child)
    ensures Count(cs + [x], c) == Count(cs, c) + if x == c then 1 else 0
  {
  }

  lemma CountJoined(a: seq<Child>, b: seq<Child>, c: Child)
    ensures Count(a + b, c) == Count(a, c) + Count(b, c)
  {
  }

  lemma ChosenLast(pending: seq<Child>, exited: set<Child>, which: bool, c: Child)
    requires pending != []
    ensures var n := |pending| - 1;
            Count(Chosen(pending, exited, which), c)
            == Count(Chosen(pending[..n], exited, which), c)
               + if (pending[n] in exited) == which && pending[n] == c then 1 else 0
  {
    var n := |pending| - 1;
    var front := Chosen(pending[..n], exited, which);
    if (pending[n] in exited) == which {
      CountSnoc(front, pending[n], c);
    } else {
      assert front + [] == front;
    }
  }

  /** Reaping moves each child that exited from one list to the other. */
  lemma {:induction false} ChosenParts(pending: seq<Child>, exited: set<Child>, c: Child)
    ensures Count(Chosen(pending, exited, false), c) == if c in exited then 0 else Count(pending, c)
    ensures Count(Chosen(pending, exited, true), c) == if c in exited then Count(pending, c) else 0
  {
    if pending != [] {
      var n := |pending| - 1;
      ChosenParts(pending[..n], exited, c);
      ChosenLast(pending, exited, false, c);
      ChosenLast(pending, exited, true, c);
      CountLast(pending, c);
    }
  }

  /** Whatever goes or stays keeps its order: children pending in the order they were spawned still are. */
  lemma {:induction false} ChosenAscends(pending: seq<Child>, exited: set<Child>, which: bool)
    requires forall i, j :: 0 <= i < j < |pending| ==> pending[i] < pending[j]
    ensures var c := Chosen(pending, exited, which);
            && (forall i, j :: 0 <= i < j < |c| ==> c[i] < c[j])
            && (forall x :: x in c <==> x in pending && (x in exited) == which)
  {
    if pending != [] {
      var n := |pending| - 1;
      ChosenAscends(pending[..n], exited, which);
      var front := Chosen(pending[..n], exited, which);
      assert forall x :: x in pending <==> x in pending[..n] || x == pending[n];
      forall i | 0 <= i < |front| ensures front[i] < pending[n] {
        assert front[i] in front;
        var k :| 0 <= k < n && pending[..n][k] == front[i];
      }
    }
  }

  lemma CountLast(cs: seq<Child>, c: Child)
    requires cs != []
    ensures var n := |cs| - 1; Count(cs, c) == Count(cs[..n], c) + if cs[n] == c then 1 else 0
  {
    assert cs == cs[..|cs| - 1] + [cs[|cs| - 1]];
  }

  lemma ListsDoNotMatter(s: State, pending: seq<Child>, reaped: seq<Child>)
    requires Inv(s)
    ensures var t := s.(pending := pending, reaped := reaped); Linked(t) && Held(t) && Complete(t)
  {
    var t := s.(pending := pending, reaped := reaped);
    forall r | r in t.requests ensures RequestOk(t, r) {
      assert RequestOk(s, r);
    }
    forall p | p in t.cells ensures CellOk(t, p) {
      assert CellOk(s, p);
    }
    forall k | k in t.home ensures SocketOk(t, k) {
      assert SocketOk(s, k);
    }
    forall x | x in t.modules ensures Holds(t, x) {
      assert Holds(s, x);
    }
  }

  lemma ReapKeeps(s: State, exited: set<Child>)
    requires Inv(s)
    ensures Inv(Step(s, Reap(exited)))
  {
    var stay, leave := Chosen(s.pending, exited, false), Chosen(s.pending, exited, true);
    ListsDoNotMatter(s, stay, s.reaped + leave);
    forall c: Child
      ensures Count(stay, c) + Count(s.reaped + leave, c) == if c < s.children then 1 else 0
    {
      ChosenParts(s.pending, exited, c);
      CountJoined(s.reaped, leave, c);
    }
  }

  lemma BeginStep(s: State, e: Event)
    requires Inv(s) && (e.Connect? || e.BeginRestart? || e.BeginRead?)
    ensures Inv(Step(s, e))
  {
    var q := match e
      case Connect(_, index) => Companion(Place(s.current, index), Waiting)
      case BeginRestart(_) => Restart(Place(s.current, 0))
      case _ => Reader(s.current);
    if e.r !in s.requests && (e.Connect? ==> q.place in s.cells) {
      ReplaceKeeps(s, e.r, q);
    }
  }

  lemma AdvanceStep(s: State, e: Event)
    requires Inv(s) && e.Advance?
    ensures Inv(Step(s, e))
  {
    if e.r in s.requests {
      AdvanceKeeps(s, e.r, e.answer);
    }
  }

  lemma PublishStep(s: State, e: Event)
    requires Inv(s) && e.Publish?
    ensures Inv(Step(s, e))
  {
    var t := Published(s, e.count);
    FreshCellsAre(s.snaps, e.count);
    PublishedLinked(s, e.count, FreshCells(s.snaps, e.count), t);
    CollectedKeeps(t);
  }

  lemma FreshCellsAre(x: SnapId, count: nat)
    ensures forall p :: p in FreshCells(x, count) <==> p.snap == x && p.index < count
  {
    forall p ensures p in FreshCells(x, count) <==> p.snap == x && p.index < count {
      assert Place(p.snap, p.index) == p;
    }
  }

  lemma ReapStep(s: State, e: Event)
    requires Inv(s) && e.Reap?
    ensures Inv(Step(s, e))
  {
    ReapKeeps(s, e.exited);
  }

  lemma InvStep(s: State, e: Event)
    requires Inv(s)
    ensures Inv(Step(s, e))
  {
    if e.Advance? {
      AdvanceStep(s, e);
    } else if e.Publish? {
      PublishStep(s, e);
    } else if e.Reap? {
      ReapStep(s, e);
    } else {
      BeginStep(s, e);
    }
  }

  // ---------- every run ----------

  function Run(s: State, events: seq<Event>): (t: State)
    requires Inv(s)
    ensures Inv(t)
    decreases |events|
  {
    if events == [] then s
    else
      InvStep(s, events[0]);
      Run(Step(s, events[0]), events[1..])
  }

  /** The daemon after any sequence of events, started with `count` modules. */
  function After(count: nat, events: seq<Event>): (s: State)
    ensures Inv(s)
  {
    InitInv(count);
    Run(Initial(count), events)
  }

  /** A module has at most one open companion socket, in its slot or still in a handshake. */
  lemma OneSocketPerModule(count: nat, events: seq<Event>, k: Sock, l: Sock)
    requires var s := After(count, events); k in s.home && l in s.home && s.home[k] == s.home[l]
    ensures k == l
  {
    OneSocket(After(count, events), k, l);
  }

  lemma OneSocket(s: State, k: Sock, l: Sock)
    requires Inv(s) && k in s.home && l in s.home && s.home[k] == s.home[l]
    ensures k == l
  {
    assert SocketOk(s, k) && SocketOk(s, l);
    var lock := s.cells[s.home[k]].lock;
    if lock.HeldBy? && lock.holder in s.requests {
      assert RequestOk(s, lock.holder);
    }
  }

  /** A child is spawned only by a request that has its module's lock, and only when the module has
      no open socket: none was ever made, or it was closed as dead, refused or retired. */
  lemma SpawnsOnlyForEmpty(count: nat, events: seq<Event>, e: Event)
    requires Step(After(count, events), e).children != After(count, events).children
    ensures var s := After(count, events);
            && e.Advance? && e.r in s.requests && s.requests[e.r].Companion?
            && SpawnsFor(s, Step(s, e), e.r, s.requests[e.r].place)
  {
    SpawnStep(After(count, events), e);
  }

  ghost predicate SpawnsFor(s: State, t: State, r: ReqId, p: Place) {
    && p in s.cells && s.cells[p] == Cell(Empty, HeldBy(r))
    && (forall k <- s.home :: s.home[k] != p)
    && t.home == s.home[s.sockets := p]
    && t.children == s.children + 1 && t.pending == s.pending + [s.children]
  }

  lemma SpawnStep(s: State, e: Event)
    requires Inv(s) && Step(s, e).children != s.children
    ensures e.Advance? && e.r in s.requests && s.requests[e.r].Companion?
    ensures SpawnsFor(s, Step(s, e), e.r, s.requests[e.r].place)
  {
    if e.Advance? {
      AdvanceSpawns(s, e.r, e.answer);
    }
  }

  lemma AdvanceSpawns(s: State, r: ReqId, a: Answer)
    requires Inv(s) && r in s.requests && Advanced(s, r, a).children != s.children
    ensures s.requests[r].Companion? && SpawnsFor(s, Advanced(s, r, a), r, s.requests[r].place)
  {
    assert RequestOk(s, r);
    NoSocketFor(s, r, s.requests[r].place);
  }

  lemma NoSocketFor(s: State, r: ReqId, p: Place)
    requires Inv(s) && r in s.requests && s.requests[r] == Companion(p, Checked)
    requires p in s.cells && s.cells[p].slot.Empty?
    ensures forall k <- s.home :: s.home[k] != p
  {
    assert RequestOk(s, r);
    forall k | k in s.home ensures s.home[k] != p {
      assert SocketOk(s, k);
    }
  }

  /** Every child that was spawned is pending or was reaped, exactly once in all. */
  lemma EveryChildWaitedForOnce(count: nat, events: seq<Event>, c: Child)
    ensures var s := After(count, events);
            Count(s.pending, c) + Count(s.reaped, c) == if c < s.children then 1 else 0
  {
  }

  /** A child that was reaped stays so, and only reaping takes one off the pending list. */
  lemma ReapedForGood(s: State, e: Event)
    requires WellFormed(s)
    ensures s.reaped <= Step(s, e).reaped && (e.Reap? || s.pending <= Step(s, e).pending)
  {
    match e
    case Advance(r, a) =>
    case _ =>
  }

  /** An open socket belongs to a module of the current snapshot or of one that a handler still
      holds, and is in that module's slot or with the request that holds the slot. */
  lemma SocketsSurviveOnlyHeld(count: nat, events: seq<Event>, k: Sock)
    requires k in After(count, events).home
    ensures var s := After(count, events); Holds(s, s.home[k].snap) && SocketOk(s, k)
  {
    var s := After(count, events);
    assert SocketOk(s, k) && CellOk(s, s.home[k]);
  }

  // ---------- what a request does ----------

  /** A new request waits for the companion of a module of the current snapshot, if it has one of that
      index; a restart starts with its first module; and a reader holds it. */
  lemma BeginOutcome(s: State, r: ReqId, index: nat)
    requires Inv(s) && r !in s.requests
    ensures Step(s, Connect(r, index)) ==
            if index < s.modules[s.current] then
              s.(requests := s.requests[r := Companion(Place(s.current, index), Waiting)])
            else s
    ensures Step(s, BeginRestart(r)) == s.(requests := s.requests[r := Restart(Place(s.current, 0))])
    ensures Step(s, BeginRead(r)) == s.(requests := s.requests[r := Reader(s.current)])
  {
    var p := Place(s.current, index);
    assert p in s.cells ==> CellOk(s, p);
  }

  /** Step by step: the lock is taken when it is free; a dead companion leaves the slot and its socket
      is closed, a live one stays; one is spawned only for an empty slot; it comes into the slot if it
      says it is ready, and its socket is closed if not; and the lock is given back. */
  lemma CompanionStep(s: State, r: ReqId, a: Answer)
    requires Inv(s) && r in s.requests && s.requests[r].Companion?
    ensures var p, phase := s.requests[r].place, s.requests[r].phase;
            var t := Step(s, Advance(r, a));
            p in s.cells &&
            match phase
            case Waiting => t == if s.cells[p].lock == Free then Goes(s, r, p, Locked, Cell(s.cells[p].slot, HeldBy(r)), s.home) else s
            case Locked =>
              t == Goes(s, r, p, Checked, s.cells[p].(slot := if a.alive then s.cells[p].slot else Empty),
                        if a.alive || s.cells[p].slot == Empty then s.home else s.home - {s.cells[p].slot.sock})
            case Checked =>
              if s.cells[p].slot == Empty && a.spawns then
                t.requests[r].phase == Handshake(s.sockets) && t.home == s.home[s.sockets := p] && t.cells == s.cells
              else t == Goes(s, r, p, Sending, s.cells[p], s.home)
            case Handshake(k) =>
              t == Goes(s, r, p, Sending, s.cells[p].(slot := if a.ready then Full(k) else Empty),
                        if a.ready then s.home else s.home - {k})
            case Sending => t.requests == s.requests - {r} && (p in t.cells ==> t.cells[p] == s.cells[p].(lock := Free))
  {
    assert RequestOk(s, r);
    var p := s.requests[r].place;
    assert s.cells == s.cells[p := s.cells[p]];
  }

  function Goes(s: State, r: ReqId, p: Place, phase: Phase, cell: Cell, home: map<Sock, Place>): State {
    s.(requests := s.requests[r := Companion(p, phase)], cells := s.cells[p := cell], home := home)
  }

  /** A restart closes the companion of one module after the other, waiting for the lock of each. */
  lemma RestartEmpties(s: State, r: ReqId, a: Answer)
    requires Inv(s) && r in s.requests && s.requests[r].Restart?
    ensures var p, t := s.requests[r].at, Step(s, Advance(r, a));
            if p !in s.cells then t.requests == s.requests - {r}
            else if s.cells[p].lock != Free then t == s
            else
              && t.cells == s.cells[p := Cell(Empty, Free)]
              && t.home == (if s.cells[p].slot == Empty then s.home else s.home - {s.cells[p].slot.sock})
              && t.requests == s.requests[r := Restart(Place(p.snap, p.index + 1))]
  {
    assert RequestOk(s, r);
    var p := s.requests[r].at;
    if p in s.cells && s.cells[p] == Cell(Empty, Free) {
      assert s.cells == s.cells[p := Cell(Empty, Free)];
    }
  }

  /** A request that nothing interrupts. */
  function Served(s: State, r: ReqId, a: Answer, n: nat): (t: State)
    requires Inv(s)
    ensures Inv(t)
    decreases n
  {
    if n == 0 then s
    else
      InvStep(s, Advance(r, a));
      Served(Step(s, Advance(r, a)), r, a, n - 1)
  }

  /** In the end its module has the companion there was, if that is alive, or else a new one, if it
      could be spawned and is ready, or else none. */
  lemma RequestServes(s: State, r: ReqId, a: Answer) returns (n: nat)
    requires Inv(s) && r in s.requests && s.requests[r].Companion? && s.requests[r].phase == Waiting
    requires s.requests[r].place in s.cells && s.cells[s.requests[r].place].lock == Free
    ensures var p, t := s.requests[r].place, Served(s, r, a, n);
            && p in t.cells && t.cells[p].lock == HeldBy(r)
            && r in t.requests && t.requests[r] == Companion(p, Sending)
            && t.cells[p].slot == if s.cells[p].slot != Empty && a.alive then s.cells[p].slot
                                  else if a.spawns && a.ready then Full(s.sockets)
                                  else Empty
  {
    var e := Advance(r, a);
    CompanionStep(s, r, a);
    InvStep(s, e);
    var s1 := Step(s, e);
    CompanionStep(s1, r, a);
    InvStep(s1, e);
    var s2 := Step(s1, e);
    CompanionStep(s2, r, a);
    InvStep(s2, e);
    var s3 := Step(s2, e);
    n := 3;
    ServedThrice(s, r, a, s1, s2, s3);
    if s3.requests[r].phase.Handshake? {
      CompanionStep(s3, r, a);
      n := 4;
      ServedAgain(s, r, a, 3);
    }
  }

  lemma ServedThrice(s: State, r: ReqId, a: Answer, s1: State, s2: State, s3: State)
    requires Inv(s) && s1 == Step(s, Advance(r, a)) && Inv(s1) && s2 == Step(s1, Advance(r, a)) && Inv(s2)
    requires s3 == Step(s2, Advance(r, a))
    ensures Served(s, r, a, 3) == s3
  {
    ServedAgain(s, r, a, 0);
    ServedAgain(s, r, a, 1);
    ServedAgain(s, r, a, 2);
  }

  lemma {:induction false} ServedAgain(s: State, r: ReqId, a: Answer, n: nat)
    requires Inv(s)
    ensures Served(s, r, a, n + 1) == Step(Served(s, r, a, n), Advance(r, a))
    decreases n
  {
    if n > 0 {
      InvStep(s, Advance(r, a));
      ServedAgain(Step(s, Advance(r, a)), r, a, n - 1);
    }
  }

  /** A publication makes a new current snapshot, whose modules have no companion yet; of the others,
      those that a handler holds stay as they are, with their sockets, and the rest go. */
  lemma PublishOutcome(s: State, count: nat)
    requires Inv(s)
    ensures var t := Step(s, Publish(count));
            && t.current == s.snaps && s.snaps !in s.modules && t.current in t.modules && t.modules[t.current] == count
            && (forall p :: p in t.cells <==>
                  (p.snap == s.snaps && p.index < count) || (p in s.cells && exists r <- s.requests :: s.requests[r].Snap() == p.snap))
            && (forall p :: p in t.cells ==> t.cells[p] == if p in s.cells then s.cells[p] else Cell(Empty, Free))
            && (forall k :: k in t.home <==> k in s.home && exists r <- s.requests :: s.requests[r].Snap() == s.home[k].snap)
            && t.requests == s.requests && t.pending == s.pending && t.reaped == s.reaped
  {
    var u := Published(s, count);
    FreshCellsAre(s.snaps, count);
    forall p | p in s.cells ensures p.snap < s.snaps {
      assert CellOk(s, p);
    }
    forall k | k in s.home ensures s.home[k].snap < s.snaps {
      assert SocketOk(s, k);
    }
    assert forall x: SnapId :: x < s.snaps ==> (Holds(u, x) <==> exists r <- s.requests :: s.requests[r].Snap() == x);
  }
}
