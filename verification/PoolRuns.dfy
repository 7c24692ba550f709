/** Every interleaving of the pool's callers, its janitor and its shutdown. Each
    lock-held region is one step, as is each call into the factory; a run is any
    list of actions, and an action that is not enabled leaves the system alone. */
module PoolRuns {
  import opened PoolBook

  /** Where a goroutine stands between two steps. */
  datatype Proc =
    | Acquiring                 // about to take the lock in Acquire
    | Validating(r: Res)        // validating a resource it was lent
    | Rejecting(r: Res)         // validation failed, about to close
    | Returning(again: bool)    // about to return its slot, then retry or fail
    | Creating                  // holds a slot, calling the factory
    | Waiting                   // blocked on its grant channel
    | Abandoning                // woken by its context or by Close, about to leave the queue
    | Draining                  // not found in the queue, about to receive the grant
    | Holding(r: Res)           // returned a lease
    | Releasing(r: Res)         // about to take the lock in putBack
    | Discarding(r: Res)        // about to take the lock in discard
    | ShuttingDown(rs: seq<Res>)// Close, waiting for the janitor
    | Closing(rs: seq<Res>)     // closing these one by one, lock not held
    | Ended

  datatype System = System(
    book: Book, procs: map<Pid, Proc>, created: nat, closedLog: seq<Res>, lost: seq<Res>)

  datatype Action =
    | Start(p: Pid) | Expire(p: Pid) | Lock(p: Pid)
    | Validate(p: Pid, healthy: bool) | Reject(p: Pid) | Return(p: Pid)
    | Create(p: Pid, created: bool) | Receive(p: Pid)
    | GiveUp(p: Pid) | Leave(p: Pid) | Drain(p: Pid)
    | Release(p: Pid) | Discard(p: Pid) | PutBackStep(p: Pid, now: int) | DiscardStep(p: Pid)
    | EvictStep(p: Pid, cutoff: int) | Shutdown(p: Pid) | JanitorStopped(p: Pid) | ShutdownExpired(p: Pid)
    | CloseOne(p: Pid)

  function Init(maxSize: nat): System {
    System(Book([], 0, maxSize, [], false, map[]), map[], 0, [], [])
  }

  function Taking(t: Taken): Proc {
    match t
    case Refused => Ended
    case TookIdle(r) => Validating(r)
    case TookSlot => Creating
    case Queued => Waiting
  }

  /** Continuation of a received grant: to use it, or to give it back. */
  function Using(g: Grant): Proc { match g case Lend(r) => Validating(r) case Permit => Creating }
  function GivingBack(g: Grant): Proc { match g case Lend(r) => Releasing(r) case Permit => Returning(false) }

  function Move(s: System, p: Pid, to: Proc, book: Book): System {
    s.(book := book, procs := s.procs[p := to])
  }

  /** A goroutine's first step. */
  function FreshStep(s: System, a: Action): System {
    match a
    case Start(p) => Move(s, p, Acquiring, s.book)
    case EvictStep(p, cutoff) => Move(s, p, Closing(Evict(s.book, cutoff).1), Evict(s.book, cutoff).0)
    case Shutdown(p) => if s.book.closed then s else Move(s, p, ShuttingDown(Shut(s.book).1), Shut(s.book).0)
    case _ => s
  }

  /** The actions of a running goroutine that do not take the lock or touch a grant channel. */
  predicate OffLock(a: Action) {
    a.Expire? || a.Validate? || a.Reject? || a.Create? || a.Release? || a.Discard?
    || a.JanitorStopped? || a.ShutdownExpired? || a.CloseOne?
  }

  function OffLockStep(s: System, a: Action, x: Proc): System {
    var (p, b) := (a.p, s.book);
    match a
    case Expire(_) => if x.Acquiring? then Move(s, p, Ended, b) else s
    case Validate(_, healthy) =>
      if x.Validating? then Move(s, p, if healthy then Holding(x.r) else Rejecting(x.r), b) else s
    case Reject(_) => if x.Rejecting? then Move(s, p, Returning(true), b).(closedLog := s.closedLog + [x.r]) else s
    case Create(_, ok) =>
      if x.Creating? then
        if ok then Move(s, p, Holding(s.created), b).(created := s.created + 1) else Move(s, p, Returning(false), b)
      else s
    case Release(_) => if x.Holding? then Move(s, p, Releasing(x.r), b) else s
    case Discard(_) => if x.Holding? then Move(s, p, Discarding(x.r), b) else s
    case JanitorStopped(_) => if x.ShuttingDown? then Move(s, p, Closing(x.rs), b) else s
    case ShutdownExpired(_) => if x.ShuttingDown? then Move(s, p, Ended, b).(lost := s.lost + x.rs) else s
    case CloseOne(_) =>
      if x.Closing? then
        if x.rs == [] then Move(s, p, Ended, b)
        else Move(s, p, Closing(x.rs[1..]), b).(closedLog := s.closedLog + [x.rs[0]])
      else s
    case _ => s
  }

  function LockStep(s: System, a: Action, x: Proc): System {
    var (p, b) := (a.p, s.book);
    match a
    case Lock(_) => if x.Acquiring? then Move(s, p, Taking(Take(b, p).1), Take(b, p).0) else s
    case Return(_) => if x.Returning? then Move(s, p, if x.again then Acquiring else Ended, ReturnSlot(b)) else s
    case Receive(_) =>
      if x.Waiting? && p in b.cells then Move(s, p, Using(b.cells[p]), b.(cells := b.cells - {p})) else s
    case GiveUp(_) => if x.Waiting? then Move(s, p, Abandoning, b) else s
    case Leave(_) =>
      if x.Abandoning? then Move(s, p, if RemoveWaiter(b, p).1 then Ended else Draining, RemoveWaiter(b, p).0) else s
    case Drain(_) =>
      if x.Draining? && p in b.cells then Move(s, p, GivingBack(b.cells[p]), b.(cells := b.cells - {p})) else s
    case PutBackStep(_, now) =>
      if x.Releasing? then
        Move(s, p, if PutBack(b, x.r, now).1 then Closing([x.r]) else Ended, PutBack(b, x.r, now).0)
      else s
    case DiscardStep(_) => if x.Discarding? then Move(s, p, Closing([x.r]), ReturnSlot(b)) else s
    case _ => s
  }

  function Step(s: System, a: Action): System {
    if a.p !in s.procs then FreshStep(s, a)
    else if OffLock(a) then OffLockStep(s, a, s.procs[a.p])
    else LockStep(s, a, s.procs[a.p])
  }

  function Run(s: System, actions: seq<Action>): System
    decreases |actions|
  {
    if actions == [] then s else Run(Step(s, actions[0]), actions[1..])
  }

  // ---- the queue: starvation, grants, channels ----

  /** A waiter means there is nothing to hand out. */
  predicate Starved(b: Book) { b.waiters != [] ==> b.idle == [] && b.freeSlots == 0 }

  predicate Distinct(q: seq<nat>) { forall i, j :: 0 <= i < j < |q| ==> q[i] != q[j] }

  predicate InQueueState(x: Proc) { x.Waiting? || x.Abandoning? }

  /** Every blocked caller is queued with an empty channel, or unqueued with one grant. */
  predicate ChannelOk(b: Book, p: Pid, x: Proc) {
    && (p in b.waiters ==> InQueueState(x) && p !in b.cells)
    && (p in b.cells ==> InQueueState(x) || x.Draining?)
    && (InQueueState(x) ==> p in b.waiters || p in b.cells)
    && (x.Draining? ==> p in b.cells)
  }

  predicate Channels(s: System) {
    && Distinct(s.book.waiters)
    && (forall i :: 0 <= i < |s.book.waiters| ==> s.book.waiters[i] in s.procs)
    && s.book.cells.Keys <= s.procs.Keys
    && forall p: Pid :: p in s.procs ==> ChannelOk(s.book, p, s.procs[p])
  }

  // ---- the counters ----

  /** States in which a caller holds one unit of the lease counter. */
  predicate Leases(x: Proc) {
    x.Validating? || x.Rejecting? || x.Returning? || x.Creating? || x.Holding? || x.Releasing? || x.Discarding?
  }

  function Lessees(procs: map<Pid, Proc>): set<Pid> { set p | p in procs && Leases(procs[p]) }

  predicate Counted(s: System, maxSize: nat) {
    var b := s.book;
    && b.freeSlots >= 0
    && b.leased == |Lessees(s.procs)| + |b.cells|
    && (!b.closed ==> |b.idle| + b.leased + b.freeSlots == maxSize)
    && (b.closed ==> b.idle == [] && b.leased + b.freeSlots <= maxSize)
  }

  // ---- where every resource is ----

  datatype Place = AtIdle | InFlight(to: Pid) | With(owner: Pid) | Closed | Lost

  function Owned(x: Proc): seq<Res> {
    match x
    case Validating(r) => [r]
    case Rejecting(r) => [r]
    case Holding(r) => [r]
    case Releasing(r) => [r]
    case Discarding(r) => [r]
    case ShuttingDown(rs) => rs
    case Closing(rs) => rs
    case _ => []
  }

  /** Everything to be found at a place. */
  function Contents(s: System, place: Place): seq<Res> {
    match place
    case AtIdle => Resources(s.book.idle)
    case InFlight(p) => if p in s.book.cells && s.book.cells[p].Lend? then [s.book.cells[p].resource] else []
    case With(p) => if p in s.procs then Owned(s.procs[p]) else []
    case Closed => s.closedLog
    case Lost => s.lost
  }

  ghost predicate AllAt(rs: seq<Res>, loc: map<Res, Place>, place: Place) {
    && Distinct(rs)
    && forall i :: 0 <= i < |rs| ==> rs[i] in loc && loc[rs[i]] == place
  }

  /** loc names the one place of each created resource, and no place holds anything else or anything twice. */
  ghost predicate Placed(s: System, loc: map<Res, Place>) {
    && (forall r: Res :: r in loc <==> r < s.created)
    && (forall r: Res :: r in loc ==> r in Contents(s, loc[r]))
    && (forall place :: AllAt(Contents(s, place), loc, place))
  }

  ghost predicate Somewhere(s: System) { exists loc :: Placed(s, loc) }

  ghost predicate Consistent(s: System, maxSize: nat) {
    Starved(s.book) && Channels(s) && Counted(s, maxSize) && Somewhere(s)
  }

  // ---- the regions on a starved book ----

  lemma GrantsNothing(b: Book)
    requires Starved(b)
    ensures GrantAvailable(b) == b
  {
  }

  /** A returned slot is handed to the head of the queue, or becomes free; no other grant is ever made. */
  lemma ReturnSlotOnce(b: Book)
    requires Starved(b) && b.freeSlots >= 0
    ensures b.waiters == [] ==> ReturnSlot(b) == b.(leased := b.leased - 1, freeSlots := b.freeSlots + 1)
    ensures b.waiters != [] ==>
              ReturnSlot(b) == b.(waiters := b.waiters[1..], cells := b.cells[b.waiters[0] := Permit])
  {
    var c := b.(leased := b.leased - 1, freeSlots := b.freeSlots + 1);
    if b.waiters != [] {
      var d := c.(freeSlots := c.freeSlots - 1, leased := c.leased + 1,
                  waiters := c.waiters[1..], cells := c.cells[c.waiters[0] := Permit]);
      assert GrantAvailable(c) == GrantAvailable(d);
      GrantsNothing(d);
    }
  }

  lemma {:induction false} EvictSplits(idle: seq<Entry>, cutoff: int)
    requires Distinct(Resources(idle))
    ensures |Kept(idle, cutoff)| + |Expired(idle, cutoff)| == |idle|
    ensures Distinct(Resources(Kept(idle, cutoff))) && Distinct(Expired(idle, cutoff))
    ensures forall r: Res :: r in Resources(idle) <==> (r in Resources(Kept(idle, cutoff)) || r in Expired(idle, cutoff))
    ensures forall r: Res :: !(r in Resources(Kept(idle, cutoff)) && r in Expired(idle, cutoff))
  {
    if idle != [] {
      var n := |idle| - 1;
      var front := idle[..n];
      assert forall i :: 0 <= i < n ==> Resources(front)[i] == Resources(idle)[i];
      EvictSplits(front, cutoff);
      var r := idle[n].resource;
      assert Resources(idle)[n] == r;
      assert r !in Resources(front);
      assert Resources(idle) == Resources(front) + [r];
      if idle[n].lastUsed < cutoff {
        assert Kept(idle, cutoff) == Kept(front, cutoff);
        assert Expired(idle, cutoff) == Expired(front, cutoff) + [r];
      } else {
        assert Kept(idle, cutoff) == Kept(front, cutoff) + [idle[n]];
        assert Resources(Kept(idle, cutoff)) == Resources(Kept(front, cutoff)) + [r];
        assert Expired(idle, cutoff) == Expired(front, cutoff);
      }
    }
  }

  lemma EvictOnStarved(b: Book, cutoff: int)
    requires Starved(b)
    ensures Evict(b, cutoff) == (b.(idle := Kept(b.idle, cutoff), freeSlots := b.freeSlots + |Expired(b.idle, cutoff)|),
                                 Expired(b.idle, cutoff))
    ensures b.waiters != [] ==> Kept(b.idle, cutoff) == [] && Expired(b.idle, cutoff) == []
  {
    var b' := b.(idle := Kept(b.idle, cutoff), freeSlots := b.freeSlots + |Expired(b.idle, cutoff)|);
    GrantsNothing(b');
  }

  // ---- each step keeps each part ----

  lemma StepStarved(s: System, a: Action, maxSize: nat)
    requires Starved(s.book) && Channels(s) && Counted(s, maxSize)
    ensures Starved(Step(s, a).book)
  {
    hide Channels;
    if a.EvictStep? { EvictOnStarved(s.book, a.cutoff); }
    if a.Return? || a.DiscardStep? { ReturnSlotOnce(s.book); }
  }

  /** The queue after p has left it. */
  lemma WithoutOne(q: seq<Pid>, p: Pid)
    requires Distinct(q)
    ensures Distinct(Without(q, p)) && p !in Without(q, p)
    ensures forall x: Pid :: x != p ==> (x in Without(q, p) <==> x in q)
  {
    hide Distinct;
    var i := IndexIn(q, p);
    if i < |q| {
      assert q == q[..i] + [p] + q[i + 1..];
      SplitDistinct(q[..i], [p], q[i + 1..]);
      assert p in [p];
    }
  }

  /** Popping the head into its channel. */
  lemma PopKeepsChannels(s: System, p: Pid, to: Proc, b: Book, g: Grant)
    requires Channels(s) && s.book.waiters != []
    requires p in s.procs && !InQueueState(s.procs[p]) && !s.procs[p].Draining?
    requires !InQueueState(to) && !to.Draining?
    requires b.waiters == s.book.waiters[1..] && b.cells == s.book.cells[s.book.waiters[0] := g]
    ensures Channels(Move(s, p, to, b))
  {
    var w := s.book.waiters[0];
    var s' := Move(s, p, to, b);
    assert s.book.waiters == [w] + b.waiters;
    assert ChannelOk(s.book, p, s.procs[p]) && ChannelOk(s.book, w, s.procs[w]);
    forall x | x in s'.procs ensures ChannelOk(b, x, s'.procs[x]) {
      assert x in s.procs && ChannelOk(s.book, x, s.procs[x]);
    }
  }

  /** A caller that neither was nor becomes blocked leaves the channels alone. */
  lemma PlainKeepsChannels(s: System, p: Pid, to: Proc, b: Book)
    requires Channels(s)
    requires p in s.procs ==> !InQueueState(s.procs[p]) && !s.procs[p].Draining?
    requires !InQueueState(to) && !to.Draining?
    requires b.waiters == s.book.waiters && b.cells == s.book.cells
    ensures Channels(Move(s, p, to, b))
  {
    var s' := Move(s, p, to, b);
    forall x | x in s'.procs ensures ChannelOk(b, x, s'.procs[x]) {
      if x in s.procs { assert ChannelOk(s.book, x, s.procs[x]); }
    }
  }

  /** Receiving the grant empties the channel of a caller that is no longer queued. */
  lemma ReceiveKeepsChannels(s: System, p: Pid, to: Proc)
    requires Channels(s) && p in s.book.cells
    requires !InQueueState(to) && !to.Draining?
    ensures Channels(Move(s, p, to, s.book.(cells := s.book.cells - {p})))
  {
    var s' := Move(s, p, to, s.book.(cells := s.book.cells - {p}));
    forall x | x in s'.procs ensures ChannelOk(s'.book, x, s'.procs[x]) {
      assert x in s.procs && ChannelOk(s.book, x, s.procs[x]);
    }
  }

  /** Joining the queue. */
  lemma QueueKeepsChannels(s: System, p: Pid)
    requires Channels(s) && p in s.procs && s.procs[p].Acquiring?
    ensures Channels(Move(s, p, Waiting, s.book.(waiters := s.book.waiters + [p])))
  {
    var s' := Move(s, p, Waiting, s.book.(waiters := s.book.waiters + [p]));
    assert ChannelOk(s.book, p, s.procs[p]);
    forall x | x in s'.procs ensures ChannelOk(s'.book, x, s'.procs[x]) {
      assert x in s.procs && ChannelOk(s.book, x, s.procs[x]);
    }
  }

  /** Waking without a grant, and leaving the queue or finding the grant already sent. */
  lemma LeaveKeepsChannels(s: System, p: Pid)
    requires Channels(s) && p in s.procs
    ensures s.procs[p].Waiting? ==> Channels(Move(s, p, Abandoning, s.book))
    ensures s.procs[p].Abandoning? && p in s.book.waiters ==> Channels(Move(s, p, Ended, RemoveWaiter(s.book, p).0))
    ensures s.procs[p].Abandoning? && p !in s.book.waiters ==> Channels(Move(s, p, Draining, RemoveWaiter(s.book, p).0))
  {
    hide Distinct;
    assert ChannelOk(s.book, p, s.procs[p]);
    WithoutOne(s.book.waiters, p);
    forall x | x in s.procs ensures ChannelOk(s.book, x, s.procs[x]) {}
    var q := Without(s.book.waiters, p);
    assert forall i :: 0 <= i < |q| ==> q[i] in q;
  }

  lemma ReturnKeepsChannels(s: System, p: Pid, to: Proc)
    requires Starved(s.book) && Channels(s) && s.book.freeSlots >= 0
    requires p in s.procs && !InQueueState(s.procs[p]) && !s.procs[p].Draining?
    requires !InQueueState(to) && !to.Draining?
    ensures Channels(Move(s, p, to, ReturnSlot(s.book)))
  {
    hide Channels, ReturnSlot;
    var b := s.book;
    ReturnSlotOnce(b);
    if b.waiters == [] {
      PlainKeepsChannels(s, p, to, ReturnSlot(b));
    } else {
      PopKeepsChannels(s, p, to, ReturnSlot(b), Permit);
    }
  }

  lemma PutBackKeepsChannels(s: System, p: Pid, r: Res, now: int)
    requires Channels(s) && p in s.procs && s.procs[p].Releasing?
    ensures var (b, close) := PutBack(s.book, r, now);
            Channels(Move(s, p, if close then Closing([r]) else Ended, b))
  {
    hide Channels;
    var b := PutBack(s.book, r, now).0;
    if s.book.closed || s.book.waiters == [] {
      PlainKeepsChannels(s, p, if s.book.closed then Closing([r]) else Ended, b);
    } else {
      PopKeepsChannels(s, p, Ended, b, Lend(r));
    }
  }

  lemma FreshChannels(s: System, a: Action)
    requires Starved(s.book) && Channels(s) && a.p !in s.procs
    ensures Channels(Step(s, a))
  {
    hide Channels;
    if a.EvictStep? { EvictOnStarved(s.book, a.cutoff); }
    if Step(s, a) != s {
      PlainKeepsChannels(s, a.p, Step(s, a).procs[a.p], Step(s, a).book);
    }
  }

  lemma OffLockChannels(s: System, a: Action)
    requires Channels(s) && a.p in s.procs && OffLock(a)
    ensures Channels(Step(s, a))
  {
    if Step(s, a) != s {
      var to := Step(s, a).procs[a.p];
      PlainKeepsChannels(s, a.p, to, s.book) by { hide Channels; }
      SameChannels(Move(s, a.p, to, s.book), Step(s, a));
    }
  }

  lemma SameChannels(s: System, t: System)
    requires Channels(s) && s.book == t.book && s.procs == t.procs
    ensures Channels(t)
  {
  }

  lemma StepChannels(s: System, a: Action)
    requires Starved(s.book) && Channels(s) && s.book.freeSlots >= 0
    ensures Channels(Step(s, a))
  {
    hide Channels, ReturnSlot, RemoveWaiter, Starved;
    var p, b := a.p, s.book;
    if p !in s.procs {
      FreshChannels(s, a);
    } else if OffLock(a) {
      OffLockChannels(s, a);
    } else {
      var x := s.procs[p];
      match a
      case Return(_) => if x.Returning? { ReturnKeepsChannels(s, p, if x.again then Acquiring else Ended); }
      case DiscardStep(_) => if x.Discarding? { ReturnKeepsChannels(s, p, Closing([x.r])); }
      case PutBackStep(_, now) => if x.Releasing? { PutBackKeepsChannels(s, p, x.r, now); }
      case Receive(_) => if x.Waiting? && p in b.cells { ReceiveKeepsChannels(s, p, Using(b.cells[p])); }
      case Drain(_) => if x.Draining? && p in b.cells { ReceiveKeepsChannels(s, p, GivingBack(b.cells[p])); }
      case GiveUp(_) => if x.Waiting? { LeaveKeepsChannels(s, p); }
      case Leave(_) => if x.Abandoning? { LeaveKeepsChannels(s, p); LeaveForm(b, p); }
      case Lock(_) =>
        if x.Acquiring? {
          if Take(b, p).1.Queued? { QueueKeepsChannels(s, p); }
          else { PlainKeepsChannels(s, p, Taking(Take(b, p).1), Take(b, p).0); }
        }
      case _ =>
    }
  }

  lemma LeaveForm(b: Book, p: Pid)
    ensures RemoveWaiter(b, p).1 == (p in b.waiters)
    ensures RemoveWaiter(b, p).0.idle == b.idle && RemoveWaiter(b, p).0.cells == b.cells
  {
  }

  // ---- counters ----

  function Unit(b: bool): nat { if b then 1 else 0 }

  lemma LesseesMove(procs: map<Pid, Proc>, p: Pid, to: Proc)
    ensures |Lessees(procs[p := to])| == |Lessees(procs)| - Unit(p in procs && Leases(procs[p])) + Unit(Leases(to))
  {
    var before, after := Lessees(procs), Lessees(procs[p := to]);
    assert after - {p} == before - {p};
    assert p in before <==> p in procs && Leases(procs[p]);
    assert p in after <==> Leases(to);
    assert |before - {p}| == |before| - Unit(p in before);
    assert |after - {p}| == |after| - Unit(p in after);
  }

  lemma CellsMove(cells: map<Pid, Grant>, p: Pid, g: Grant)
    ensures |cells[p := g]| == |cells| + Unit(p !in cells)
    ensures |cells - {p}| == |cells| - Unit(p in cells)
  {
    assert cells[p := g].Keys == cells.Keys + {p};
    assert (cells - {p}).Keys == cells.Keys - {p};
    assert |cells[p := g].Keys| == |cells[p := g]| && |(cells - {p}).Keys| == |cells - {p}| && |cells.Keys| == |cells|;
  }

  /** The head of the queue has an empty channel. */
  lemma HeadIsEmpty(s: System)
    requires Channels(s) && s.book.waiters != []
    ensures s.book.waiters[0] !in s.book.cells && s.book.waiters[0] in s.procs && InQueueState(s.procs[s.book.waiters[0]])
  {
    var w := s.book.waiters[0];
    assert ChannelOk(s.book, w, s.procs[w]);
  }

  lemma FreshCounted(s: System, a: Action, maxSize: nat, loc: map<Res, Place>)
    requires Starved(s.book) && Counted(s, maxSize) && Placed(s, loc) && a.p !in s.procs
    ensures Counted(Step(s, a), maxSize)
  {
    hide Placed, Lessees;
    if a.EvictStep? {
      EvictOnStarved(s.book, a.cutoff);
      EvictSplits(s.book.idle, a.cutoff) by { assert Distinct(Resources(s.book.idle)) by { IdleDistinct(s, loc); } }
    }
    if Step(s, a) != s {
      LesseesMove(s.procs, a.p, Step(s, a).procs[a.p]);
    }
  }

  lemma IdleDistinct(s: System, loc: map<Res, Place>)
    requires Placed(s, loc)
    ensures Distinct(Resources(s.book.idle))
  {
    assert AllAt(Contents(s, AtIdle), loc, AtIdle);
  }

  lemma OffLockCounted(s: System, a: Action, maxSize: nat)
    requires Counted(s, maxSize) && a.p in s.procs && OffLock(a)
    ensures Counted(Step(s, a), maxSize)
  {
    hide Lessees;
    if Step(s, a) != s {
      LesseesMove(s.procs, a.p, Step(s, a).procs[a.p]);
    }
  }

  lemma ReturnCounted(s: System, p: Pid, to: Proc, maxSize: nat)
    requires Starved(s.book) && Channels(s) && Counted(s, maxSize)
    requires p in s.procs && Leases(s.procs[p]) && !Leases(to)
    ensures Counted(Move(s, p, to, ReturnSlot(s.book)), maxSize)
  {
    hide Channels, Lessees, ReturnSlot;
    LesseesMove(s.procs, p, to);
    ReturnSlotOnce(s.book);
    if s.book.waiters != [] {
      HeadIsEmpty(s);
      CellsMove(s.book.cells, s.book.waiters[0], Permit);
    }
  }

  lemma PutBackCounted(s: System, p: Pid, r: Res, now: int, maxSize: nat)
    requires Channels(s) && Counted(s, maxSize) && p in s.procs && s.procs[p].Releasing?
    ensures var (b, close) := PutBack(s.book, r, now);
            Counted(Move(s, p, if close then Closing([r]) else Ended, b), maxSize)
  {
    hide Channels, Lessees;
    LesseesMove(s.procs, p, if s.book.closed then Closing([r]) else Ended);
    if s.book.waiters != [] {
      HeadIsEmpty(s);
      CellsMove(s.book.cells, s.book.waiters[0], Lend(r));
    }
  }

  lemma ReceiveCounted(s: System, p: Pid, to: Proc, maxSize: nat)
    requires Counted(s, maxSize) && p in s.procs && !Leases(s.procs[p]) && Leases(to) && p in s.book.cells
    ensures Counted(Move(s, p, to, s.book.(cells := s.book.cells - {p})), maxSize)
  {
    hide Lessees;
    LesseesMove(s.procs, p, to);
    CellsMove(s.book.cells, p, Permit);
  }

  lemma LockCounted(s: System, p: Pid, to: Proc, maxSize: nat)
    requires Counted(s, maxSize) && p in s.procs && !Leases(s.procs[p])
    ensures Counted(Move(s, p, Taking(Take(s.book, p).1), Take(s.book, p).0), maxSize)
    ensures !Leases(to) ==> Counted(Move(s, p, to, RemoveWaiter(s.book, p).0), maxSize)
    ensures !Leases(to) ==> Counted(Move(s, p, to, s.book), maxSize)
  {
    hide Lessees;
    LesseesMove(s.procs, p, to);
    LesseesMove(s.procs, p, Taking(Take(s.book, p).1));
  }

  lemma StepCounted(s: System, a: Action, maxSize: nat, loc: map<Res, Place>)
    requires Starved(s.book) && Channels(s) && Counted(s, maxSize) && Placed(s, loc)
    ensures Counted(Step(s, a), maxSize)
  {
    hide Channels, Counted, Starved, Placed, ReturnSlot, PutBack, Take, RemoveWaiter;
    var p, b := a.p, s.book;
    if p !in s.procs {
      FreshCounted(s, a, maxSize, loc);
    } else if OffLock(a) {
      OffLockCounted(s, a, maxSize);
    } else {
      var x := s.procs[p];
      match a
      case Return(_) => if x.Returning? { ReturnCounted(s, p, if x.again then Acquiring else Ended, maxSize); }
      case DiscardStep(_) => if x.Discarding? { ReturnCounted(s, p, Closing([x.r]), maxSize); }
      case PutBackStep(_, now) => if x.Releasing? { PutBackCounted(s, p, x.r, now, maxSize); }
      case Receive(_) => if x.Waiting? && p in b.cells { ReceiveCounted(s, p, Using(b.cells[p]), maxSize); }
      case Drain(_) => if x.Draining? && p in b.cells { ReceiveCounted(s, p, GivingBack(b.cells[p]), maxSize); }
      case GiveUp(_) => if x.Waiting? { LockCounted(s, p, Abandoning, maxSize); }
      case Leave(_) => if x.Abandoning? { LockCounted(s, p, if RemoveWaiter(b, p).1 then Ended else Draining, maxSize); }
      case Lock(_) => if x.Acquiring? { LockCounted(s, p, Ended, maxSize); }
      case _ =>
    }
  }

  // ---- places ----

  /** Resources rs go to one place, all others stay. */
  function Relocated(loc: map<Res, Place>, rs: seq<Res>, place: Place): map<Res, Place> {
    map r | r in loc :: if r in rs then place else loc[r]
  }

  /** What is elsewhere keeps its place when rs moves. */
  lemma Untouched(s: System, loc: map<Res, Place>, rs: seq<Res>, from: Place, to: Place, place: Place)
    requires Placed(s, loc) && place != from && place != to
    requires forall r: Res :: r in rs ==> r in Contents(s, from)
    ensures AllAt(Contents(s, place), Relocated(loc, rs, to), place)
  {
    hide Contents;
    assert AllAt(Contents(s, place), loc, place);
    assert AllAt(Contents(s, from), loc, from);
    forall i | 0 <= i < |Contents(s, place)| ensures Contents(s, place)[i] !in rs {
      assert loc[Contents(s, place)[i]] == place;
    }
  }

  /** Moving rs between two places, everything else as before, keeps each resource in one place. */
  lemma Transfer(s: System, t: System, loc: map<Res, Place>, rs: seq<Res>, from: Place, to: Place)
    requires Placed(s, loc) && from != to && t.created == s.created
    requires forall place :: place != from && place != to ==> Contents(t, place) == Contents(s, place)
    requires Distinct(Contents(t, from)) && Distinct(Contents(t, to))
    requires forall r: Res :: r in rs ==> r in Contents(s, from)
    requires forall r: Res :: r in Contents(t, from) <==> r in Contents(s, from) && r !in rs
    requires forall r: Res :: r in Contents(t, to) <==> r in Contents(s, to) || r in rs
    ensures Placed(t, Relocated(loc, rs, to))
  {
    hide Contents, Distinct;
    var moved := Relocated(loc, rs, to);
    assert AllAt(Contents(s, from), loc, from) && AllAt(Contents(s, to), loc, to);
    forall place ensures AllAt(Contents(t, place), moved, place) {
      if place != from && place != to {
        Untouched(s, loc, rs, from, to, place);
      } else {
        forall i | 0 <= i < |Contents(t, place)| ensures Contents(t, place)[i] in loc && moved[Contents(t, place)[i]] == place {
          assert Contents(t, place)[i] in Contents(t, place);
        }
      }
    }
    forall r | r in moved ensures r in Contents(t, moved[r]) {
      assert r in Contents(s, loc[r]);
    }
  }

  /** Where no place changes, loc still holds. */
  lemma SamePlaces(s: System, t: System, loc: map<Res, Place>)
    requires Placed(s, loc) && t.created == s.created
    requires forall place :: Contents(t, place) == Contents(s, place)
    ensures Placed(t, loc)
  {
    hide Contents;
    forall place ensures AllAt(Contents(t, place), loc, place) {
      assert AllAt(Contents(s, place), loc, place);
    }
  }

  /** The usual move: a slice leaves one list and joins the end of another. */
  lemma SliceMoves(s: System, t: System, loc: map<Res, Place>, a: seq<Res>, rs: seq<Res>, c: seq<Res>, from: Place, to: Place)
    requires Placed(s, loc) && from != to && t.created == s.created
    requires forall place :: place != from && place != to ==> Contents(t, place) == Contents(s, place)
    requires Contents(s, from) == a + rs + c && Contents(t, from) == a + c
    requires Contents(t, to) == Contents(s, to) + rs
    ensures Somewhere(t)
  {
    assert AllAt(Contents(s, from), loc, from) && AllAt(Contents(s, to), loc, to);
    hide Contents, Placed;
    SplitDistinct(a, rs, c);
    JoinDistinct(Contents(s, to), rs) by {
      forall r: Res | r in rs ensures r !in Contents(s, to) { assert r in a + rs + c; }
    }
    hide AllAt, Distinct;
    Transfer(s, t, loc, rs, from, to);
  }

  lemma SplitDistinct(a: seq<Res>, rs: seq<Res>, c: seq<Res>)
    requires Distinct(a + rs + c)
    ensures Distinct(a + c) && Distinct(rs)
    ensures forall r: Res :: r in rs ==> r !in a + c
  {
    var all := a + rs + c;
    forall i, j | 0 <= i < j < |a + c| ensures (a + c)[i] != (a + c)[j] {
      var i' := if i < |a| then i else i + |rs|;
      var j' := if j < |a| then j else j + |rs|;
      assert (a + c)[i] == all[i'] && (a + c)[j] == all[j'];
    }
    forall i, j | 0 <= i < j < |rs| ensures rs[i] != rs[j] {
      assert rs[i] == all[|a| + i] && rs[j] == all[|a| + j];
    }
    forall i, j | 0 <= i < |rs| && 0 <= j < |a + c| ensures rs[i] != (a + c)[j] {
      var j' := if j < |a| then j else j + |rs|;
      assert rs[i] == all[|a| + i] && (a + c)[j] == all[j'];
    }
  }

  lemma JoinDistinct(a: seq<Res>, b: seq<Res>)
    requires Distinct(a) && Distinct(b) && forall r: Res :: r in b ==> r !in a
    ensures Distinct(a + b)
  {
    forall i, j | 0 <= i < j < |a + b| ensures (a + b)[i] != (a + b)[j] {
      if i < |a| <= j { assert (a + b)[j] in b; }
    }
  }

  lemma MovePlaced(s: System, p: Pid, to: Proc, b: Book, loc: map<Res, Place>)
    requires Placed(s, loc) && b.idle == s.book.idle && b.cells == s.book.cells
    requires Owned(to) == if p in s.procs then Owned(s.procs[p]) else []
    ensures Somewhere(Move(s, p, to, b))
  {
    hide Placed;
    SamePlaces(s, Move(s, p, to, b), loc);
  }

  lemma PermitPlaced(s: System, p: Pid, to: Proc, w: Pid, b: Book, loc: map<Res, Place>)
    requires Placed(s, loc) && b.idle == s.book.idle && w !in s.book.cells && b.cells == s.book.cells[w := Permit]
    requires p in s.procs && Owned(to) == Owned(s.procs[p])
    ensures Somewhere(Move(s, p, to, b))
  {
    hide Placed;
    SamePlaces(s, Move(s, p, to, b), loc);
  }

  /** The last idle resource, if there is one, goes to the caller. */
  lemma TakePlaced(s: System, p: Pid, loc: map<Res, Place>)
    requires Placed(s, loc) && p in s.procs && Owned(s.procs[p]) == []
    ensures Somewhere(Move(s, p, Taking(Take(s.book, p).1), Take(s.book, p).0))
  {
    hide Placed, Somewhere;
    var (b, t) := Take(s.book, p);
    if t.TookIdle? {
      assert Resources(s.book.idle) == Resources(b.idle) + [t.resource] + [];
      SliceMoves(s, Move(s, p, Taking(t), b), loc, Resources(b.idle), [t.resource], [], AtIdle, With(p));
    } else {
      MovePlaced(s, p, Taking(t), b, loc);
    }
  }

  /** The grant in p's channel goes to p. */
  lemma ReceivePlaced(s: System, p: Pid, to: Proc, loc: map<Res, Place>)
    requires Placed(s, loc) && p in s.procs && Owned(s.procs[p]) == [] && p in s.book.cells
    requires Owned(to) == if s.book.cells[p].Lend? then [s.book.cells[p].resource] else []
    ensures Somewhere(Move(s, p, to, s.book.(cells := s.book.cells - {p})))
  {
    hide Placed;
    SliceMoves(s, Move(s, p, to, s.book.(cells := s.book.cells - {p})), loc, [], Owned(to), [], InFlight(p), With(p));
  }

  lemma PutBackPlaced(s: System, p: Pid, r: Res, now: int, loc: map<Res, Place>)
    requires Placed(s, loc) && Channels(s) && p in s.procs && s.procs[p] == Releasing(r)
    ensures Somewhere(Move(s, p, if PutBack(s.book, r, now).1 then Closing([r]) else Ended, PutBack(s.book, r, now).0))
  {
    hide Placed, Channels, Somewhere;
    var (b, close) := PutBack(s.book, r, now);
    var t := Move(s, p, if close then Closing([r]) else Ended, b);
    if close {
      MovePlaced(s, p, Closing([r]), b, loc);
    } else if s.book.waiters != [] {
      HeadIsEmpty(s);
      SliceMoves(s, t, loc, [], [r], [], With(p), InFlight(s.book.waiters[0]));
    } else {
      assert Resources(b.idle) == Resources(s.book.idle) + [r];
      SliceMoves(s, t, loc, [], [r], [], With(p), AtIdle);
    }
  }

  /** The first resource a caller owns is closed. */
  lemma ClosePlaced(s: System, p: Pid, to: Proc, loc: map<Res, Place>)
    requires Placed(s, loc) && p in s.procs && Owned(s.procs[p]) != [] && Owned(to) == Owned(s.procs[p])[1..]
    ensures Somewhere(Move(s, p, to, s.book).(closedLog := s.closedLog + [Owned(s.procs[p])[0]]))
  {
    hide Placed, Somewhere;
    var rs := Owned(s.procs[p]);
    assert rs == [] + [rs[0]] + rs[1..];
    SliceMoves(s, Move(s, p, to, s.book).(closedLog := s.closedLog + [rs[0]]), loc, [], [rs[0]], rs[1..], With(p), Closed);
  }

  /** Close gives up waiting for the janitor: its list is never closed. */
  lemma LosePlaced(s: System, p: Pid, loc: map<Res, Place>)
    requires Placed(s, loc) && p in s.procs
    ensures Somewhere(Move(s, p, Ended, s.book).(lost := s.lost + Owned(s.procs[p])))
  {
    hide Placed, Somewhere;
    var rs := Owned(s.procs[p]);
    SliceMoves(s, Move(s, p, Ended, s.book).(lost := s.lost + rs), loc, [], rs, [], With(p), Lost);
  }

  lemma CreatePlaced(s: System, p: Pid, loc: map<Res, Place>)
    requires Placed(s, loc) && p in s.procs && Owned(s.procs[p]) == []
    ensures Somewhere(Move(s, p, Holding(s.created), s.book).(created := s.created + 1))
  {
    hide Placed;
    NewPlaced(s, Move(s, p, Holding(s.created), s.book).(created := s.created + 1), loc, With(p));
  }

  lemma NewPlaced(s: System, t: System, loc: map<Res, Place>, at: Place)
    requires Placed(s, loc) && t.created == s.created + 1
    requires forall place :: place != at ==> Contents(t, place) == Contents(s, place)
    requires Contents(s, at) == [] && Contents(t, at) == [s.created]
    ensures Somewhere(t)
  {
    hide Contents;
    var loc' := loc[s.created := at];
    assert s.created !in loc;
    forall place ensures AllAt(Contents(t, place), loc', place) {
      if place != at { assert AllAt(Contents(s, place), loc, place); }
    }
    forall r: Res | r in loc' ensures r in Contents(t, loc'[r]) {
      if r != s.created { assert r in Contents(s, loc[r]); }
    }
    assert Placed(t, loc');
  }

  /** Eviction moves idle resources to the goroutine that will close them. */
  lemma EvictPlaced(s: System, p: Pid, cutoff: int, loc: map<Res, Place>)
    requires Starved(s.book) && Placed(s, loc) && p !in s.procs
    ensures Somewhere(Move(s, p, Closing(Evict(s.book, cutoff).1), Evict(s.book, cutoff).0))
  {
    hide Placed, Distinct, Resources, Evict, Kept, Expired, Contents, Starved;
    IdleDistinct(s, loc);
    EvictOnStarved(s.book, cutoff);
    EvictSplits(s.book.idle, cutoff);
    var (b, rs) := Evict(s.book, cutoff);
    EvictContents(s, p, rs, b);
    Transfer(s, Move(s, p, Closing(rs), b), loc, rs, AtIdle, With(p));
  }

  lemma EvictContents(s: System, p: Pid, rs: seq<Res>, b: Book)
    requires p !in s.procs && b.cells == s.book.cells
    ensures Contents(s, AtIdle) == Resources(s.book.idle) && Contents(s, With(p)) == []
    ensures var t := Move(s, p, Closing(rs), b);
            && Contents(t, AtIdle) == Resources(b.idle) && Contents(t, With(p)) == rs
            && forall place :: place != AtIdle && place != With(p) ==> Contents(t, place) == Contents(s, place)
  {
  }

  /** Close takes the whole idle list. */
  lemma ShutPlaced(s: System, p: Pid, loc: map<Res, Place>)
    requires Placed(s, loc) && p !in s.procs
    ensures Somewhere(Move(s, p, ShuttingDown(Shut(s.book).1), Shut(s.book).0))
  {
    hide Placed;
    var (b, rs) := Shut(s.book);
    assert Resources(b.idle) == [];
    SliceMoves(s, Move(s, p, ShuttingDown(rs), b), loc, [], rs, [], AtIdle, With(p));
  }

  lemma Found(s: System, loc: map<Res, Place>)
    requires Placed(s, loc)
    ensures Somewhere(s)
  {
  }

  lemma FreshPlaced(s: System, a: Action, loc: map<Res, Place>)
    requires Starved(s.book) && Placed(s, loc) && a.p !in s.procs
    ensures Somewhere(Step(s, a))
  {
    hide Placed, Somewhere, Shut, Evict;
    Found(s, loc);
    match a
    case Start(_) => MovePlaced(s, a.p, Acquiring, s.book, loc);
    case EvictStep(_, cutoff) => EvictPlaced(s, a.p, cutoff, loc);
    case Shutdown(_) => ShutPlaced(s, a.p, loc);
    case _ =>
  }

  lemma OffLockPlaced(s: System, a: Action, loc: map<Res, Place>)
    requires Placed(s, loc) && a.p in s.procs && OffLock(a)
    ensures Somewhere(Step(s, a))
  {
    hide Placed, Somewhere, Move;
    Found(s, loc);
    var p, b, x := a.p, s.book, s.procs[a.p];
    match a
    case Expire(_) => if x.Acquiring? { MovePlaced(s, p, Ended, b, loc); }
    case Validate(_, healthy) =>
      if x.Validating? { MovePlaced(s, p, if healthy then Holding(x.r) else Rejecting(x.r), b, loc); }
    case Reject(_) => if x.Rejecting? { ClosePlaced(s, p, Returning(true), loc); }
    case Create(_, ok) =>
      if x.Creating? {
        if ok { CreatePlaced(s, p, loc); } else { MovePlaced(s, p, Returning(false), b, loc); }
      }
    case Release(_) => if x.Holding? { MovePlaced(s, p, Releasing(x.r), b, loc); }
    case Discard(_) => if x.Holding? { MovePlaced(s, p, Discarding(x.r), b, loc); }
    case JanitorStopped(_) => if x.ShuttingDown? { MovePlaced(s, p, Closing(x.rs), b, loc); }
    case ShutdownExpired(_) => if x.ShuttingDown? { LosePlaced(s, p, loc); }
    case CloseOne(_) =>
      if x.Closing? {
        if x.rs == [] { MovePlaced(s, p, Ended, b, loc); } else { ClosePlaced(s, p, Closing(x.rs[1..]), loc); }
      }
  }

  lemma ReturnPlaced(s: System, p: Pid, to: Proc, loc: map<Res, Place>)
    requires Starved(s.book) && Channels(s) && s.book.freeSlots >= 0 && Placed(s, loc)
    requires p in s.procs && Owned(to) == Owned(s.procs[p])
    ensures Somewhere(Move(s, p, to, ReturnSlot(s.book)))
  {
    hide Placed, Channels, ReturnSlot, Somewhere;
    ReturnSlotOnce(s.book);
    if s.book.waiters != [] {
      HeadIsEmpty(s);
      PermitPlaced(s, p, to, s.book.waiters[0], ReturnSlot(s.book), loc);
    } else {
      MovePlaced(s, p, to, ReturnSlot(s.book), loc);
    }
  }

  lemma LockPlaced(s: System, a: Action, loc: map<Res, Place>)
    requires Starved(s.book) && Channels(s) && s.book.freeSlots >= 0 && Placed(s, loc) && a.p in s.procs
    ensures Somewhere(LockStep(s, a, s.procs[a.p]))
  {
    hide Placed, Channels, Starved, ReturnSlot, PutBack, Take, RemoveWaiter, Somewhere, Move;
    Found(s, loc);
    var p, b, x := a.p, s.book, s.procs[a.p];
    match a
    case Return(_) => if x.Returning? { ReturnPlaced(s, p, if x.again then Acquiring else Ended, loc); }
    case DiscardStep(_) => if x.Discarding? { ReturnPlaced(s, p, Closing([x.r]), loc); }
    case PutBackStep(_, now) => if x.Releasing? { PutBackPlaced(s, p, x.r, now, loc); }
    case Receive(_) => if x.Waiting? && p in b.cells { ReceivePlaced(s, p, Using(b.cells[p]), loc); }
    case Drain(_) => if x.Draining? && p in b.cells { ReceivePlaced(s, p, GivingBack(b.cells[p]), loc); }
    case GiveUp(_) => if x.Waiting? { MovePlaced(s, p, Abandoning, b, loc); }
    case Leave(_) =>
      if x.Abandoning? {
        LeaveForm(b, p);
        MovePlaced(s, p, if RemoveWaiter(b, p).1 then Ended else Draining, RemoveWaiter(b, p).0, loc);
      }
    case Lock(_) => if x.Acquiring? { TakePlaced(s, p, loc); }
    case _ =>
  }

  lemma StepPlaced(s: System, a: Action, loc: map<Res, Place>)
    requires Starved(s.book) && Channels(s) && s.book.freeSlots >= 0 && Placed(s, loc)
    ensures Somewhere(Step(s, a))
  {
    hide Placed, Channels, Starved, Somewhere, FreshStep, LockStep, OffLockStep;
    if a.p !in s.procs {
      FreshPlaced(s, a, loc);
    } else if OffLock(a) {
      OffLockPlaced(s, a, loc);
    } else {
      LockPlaced(s, a, loc);
    }
  }

  // ---- whole runs ----

  lemma StepConsistent(s: System, a: Action, maxSize: nat)
    requires Consistent(s, maxSize)
    ensures Consistent(Step(s, a), maxSize)
  {
    hide Placed, Channels, Starved, Step;
    var loc :| Placed(s, loc);
    assert s.book.freeSlots >= 0;
    hide Counted;
    StepStarved(s, a, maxSize);
    StepChannels(s, a);
    StepCounted(s, a, maxSize, loc);
    StepPlaced(s, a, loc);
  }

  lemma {:induction false} RunConsistent(s: System, actions: seq<Action>, maxSize: nat)
    requires Consistent(s, maxSize)
    ensures Consistent(Run(s, actions), maxSize)
    decreases |actions|
  {
    hide Consistent, Step;
    if actions != [] {
      StepConsistent(s, actions[0], maxSize);
      RunConsistent(Step(s, actions[0]), actions[1..], maxSize);
    }
  }

  /** Every state of every run keeps the counters, the queue discipline, the channels and the places. */
  lemma Reachable(maxSize: nat, actions: seq<Action>)
    ensures Consistent(Run(Init(maxSize), actions), maxSize)
  {
    var s := Init(maxSize);
    assert Lessees(s.procs) == {};
    assert Placed(s, map[]) by {
      forall place ensures AllAt(Contents(s, place), map[], place) {}
    }
    RunConsistent(s, actions, maxSize);
  }

  /** The occupancy bound in every reachable state, and no lost wakeup: a queued caller means nothing could be handed out. */
  lemma Occupancy(maxSize: nat, actions: seq<Action>)
    ensures var b := Run(Init(maxSize), actions).book;
            && b.leased >= 0 && b.freeSlots >= 0
            && (!b.closed ==> |b.idle| + b.leased + b.freeSlots == maxSize)
            && (b.closed ==> b.idle == [] && |b.idle| + b.leased + b.freeSlots <= maxSize)
            && (b.waiters != [] ==> b.idle == [] && b.freeSlots == 0)
  {
    Reachable(maxSize, actions);
  }

  /** A caller that abandon did not find in the queue always has exactly its one grant waiting, so receiving it never blocks. */
  lemma AbandonNeverBlocks(maxSize: nat, actions: seq<Action>, p: Pid)
    requires var s := Run(Init(maxSize), actions); p in s.procs && s.procs[p].Draining?
    ensures var s := Run(Init(maxSize), actions);
            p in s.book.cells && p !in s.book.waiters && Step(s, Drain(p)).procs[p] == GivingBack(s.book.cells[p])
  {
    Reachable(maxSize, actions);
    var s := Run(Init(maxSize), actions);
    assert ChannelOk(s.book, p, s.procs[p]);
  }

  /** Before reads "a stands ahead of b in the queue". */
  ghost predicate Before(q: seq<Pid>, a: Pid, b: Pid) {
    exists i, j :: 0 <= i < j < |q| && q[i] == a && q[j] == b
  }

  lemma {:induction false} WithoutKeepsOrder(q: seq<Pid>, p: Pid, a: Pid, b: Pid)
    requires Before(q, a, b) && a != p && b != p
    ensures Before(Without(q, p), a, b)
  {
    var i, j :| 0 <= i < j < |q| && q[i] == a && q[j] == b;
    var k := IndexIn(q, p);
    if k < |q| {
      var q' := q[..k] + q[k + 1..];
      var i' := if i < k then i else i - 1;
      var j' := if j < k then j else j - 1;
      assert q'[i'] == a && q'[j'] == b;
    }
  }

  /** The four things a step can do to the queue. */
  predicate QueueForm(b: Book, b': Book, act: Action) {
    || (b'.waiters == b.waiters && b'.cells.Keys <= b.cells.Keys)
    || (b'.waiters == b.waiters + [act.p] && b'.cells == b.cells)
    || (act.Leave? && b'.waiters == Without(b.waiters, act.p) && b'.cells == b.cells)
    || (b.waiters != [] && b'.waiters == b.waiters[1..] && b'.cells.Keys == b.cells.Keys + {b.waiters[0]})
  }

  lemma QueueAfter(s: System, act: Action, maxSize: nat)
    requires Starved(s.book) && s.book.freeSlots >= 0
    ensures QueueForm(s.book, Step(s, act).book, act)
  {
    hide Without, ReturnSlot, Evict, Kept, Expired;
    if act.EvictStep? { EvictOnStarved(s.book, act.cutoff); }
    if act.Return? || act.DiscardStep? { ReturnSlotOnce(s.book); }
  }

  lemma OrderKept(b: Book, b': Book, act: Action, x: Pid, y: Pid)
    requires Distinct(b.waiters) && QueueForm(b, b', act)
    requires Before(b.waiters, x, y) && x in b'.waiters && act != Leave(y)
    ensures Before(b'.waiters, x, y)
  {
    hide Without;
    var q, q' := b.waiters, b'.waiters;
    var i, j :| 0 <= i < j < |q| && q[i] == x && q[j] == y;
    if q' == q + [act.p] {
      assert q'[i] == x && q'[j] == y;
    } else if act.Leave? && q' == Without(q, act.p) {
      WithoutOne(q, act.p);
      WithoutKeepsOrder(q, act.p, x, y);
    } else if q' != q {
      assert i > 0 by {
        var k :| 0 <= k < |q'| && q'[k] == x;
        assert q[k + 1] == x;
      }
      assert q'[i - 1] == x && q'[j - 1] == y;
    }
  }

  /** A step grants only to the head of the queue, and lets a newcomer straight in only when nobody is queued. */
  lemma NoOvertaking(s: System, act: Action, maxSize: nat)
    requires Consistent(s, maxSize)
    ensures forall q: Pid :: q in Step(s, act).book.cells && q !in s.book.cells ==> s.book.waiters != [] && q == s.book.waiters[0]
    ensures act.Lock? && act.p in s.procs && s.procs[act.p].Acquiring? && Leases(Step(s, act).procs[act.p]) ==> s.book.waiters == []
  {
    hide Channels, Somewhere, Step, Without;
    QueueAfter(s, act, maxSize);
    StraightIn(s, act);
  }

  lemma StraightIn(s: System, act: Action)
    requires Starved(s.book) && s.book.freeSlots >= 0
    ensures act.Lock? && act.p in s.procs && s.procs[act.p].Acquiring? && Leases(Step(s, act).procs[act.p]) ==> s.book.waiters == []
  {
    hide FreshStep, OffLockStep;
  }

  /** First come, first served over whole runs: while x stays queued and y, behind x, does not walk away, y is still
      queued behind x. In particular y is never granted anything before x. */
  lemma {:induction false} FirstComeFirstServed(s: System, actions: seq<Action>, x: Pid, y: Pid, maxSize: nat)
    requires Consistent(s, maxSize) && Before(s.book.waiters, x, y)
    requires forall k :: 0 <= k <= |actions| ==> x in Run(s, actions[..k]).book.waiters
    requires Leave(y) !in actions
    ensures Before(Run(s, actions).book.waiters, x, y)
    decreases |actions|
  {
    if actions != [] {
      var act, rest := actions[0], actions[1..];
      var t := Step(s, act);
      QueueAfter(s, act, maxSize);
      StepConsistent(s, act, maxSize);
      hide Step;
      forall k | 0 <= k <= |rest| ensures x in Run(t, rest[..k]).book.waiters {
        RunPrefix(s, actions, k);
      }
      assert rest[..0] == [];
      OrderKept(s.book, t.book, act, x, y);
      hide Consistent, Before;
      FirstComeFirstServed(t, rest, x, y, maxSize);
    }
  }

  lemma RunPrefix(s: System, actions: seq<Action>, k: nat)
    requires k < |actions|
    ensures Run(s, actions[..k + 1]) == Run(Step(s, actions[0]), actions[1..][..k])
  {
    hide Step;
    assert actions[..k + 1][1..] == actions[1..][..k];
  }

  // ---- shutdown ----

  /** Close returns because its context is done, while it holds idle resources it has not closed. */
  predicate Drops(s: System, a: Action) {
    a.ShutdownExpired? && a.p in s.procs && s.procs[a.p].ShuttingDown? && s.procs[a.p].rs != []
  }

  predicate EverDrops(s: System, actions: seq<Action>)
    decreases |actions|
  {
    actions != [] && (Drops(s, actions[0]) || EverDrops(Step(s, actions[0]), actions[1..]))
  }

  lemma {:induction false} LostIffDropped(s: System, actions: seq<Action>)
    ensures Run(s, actions).lost == [] <==> s.lost == [] && !EverDrops(s, actions)
    decreases |actions|
  {
    if actions != [] {
      LostByStep(s, actions[0]);
      hide Step;
      LostIffDropped(Step(s, actions[0]), actions[1..]);
    }
  }

  lemma LostByStep(s: System, a: Action)
    ensures Step(s, a).lost == [] <==> s.lost == [] && !Drops(s, a)
  {
  }

  predicate AllEnded(s: System) { forall p :: p in s.procs ==> s.procs[p].Ended? }

  /** Each resource ever created stands once in the list. */
  ghost predicate EachOnce(s: System, rs: seq<Res>) {
    (forall r: Res :: r in rs <==> r < s.created) && (forall r: Res :: r < s.created ==> multiset(rs)[r] == 1)
  }

  /** After a shutdown in which every goroutine has ended, each resource ever created has been closed exactly once if and
      only if Close never returned early with idle resources in hand; otherwise exactly those it held are left open. */
  lemma ShutdownIff(maxSize: nat, actions: seq<Action>)
    requires var s := Run(Init(maxSize), actions); s.book.closed && AllEnded(s)
    ensures var s := Run(Init(maxSize), actions);
            && (EachOnce(s, s.closedLog) <==> !EverDrops(Init(maxSize), actions))
            && EachOnce(s, s.closedLog + s.lost)
  {
    hide Run, Placed, Channels, Starved, EachOnce;
    var s := Run(Init(maxSize), actions);
    Reachable(maxSize, actions);
    LostIffDropped(Init(maxSize), actions);
    var loc :| Placed(s, loc);
    ClosedOrLost(s, loc);
    if s.lost == [] {
      assert s.closedLog + s.lost == s.closedLog;
    } else {
      LostIsOpen(s, loc);
    }
  }

  lemma ClosedOrLost(s: System, loc: map<Res, Place>)
    requires Placed(s, loc) && Channels(s) && s.book.closed && s.book.idle == [] && AllEnded(s)
    ensures EachOnce(s, s.closedLog + s.lost)
  {
    hide Channels, Contents;
    var all := s.closedLog + s.lost;
    EndPlaces(s);
    assert AllAt(Contents(s, Closed), loc, Closed) && AllAt(Contents(s, Lost), loc, Lost);
    forall r: Res | r < s.created ensures r in all {
      assert r in Contents(s, loc[r]);
      NoGrantLeft(s, loc[r]);
    }
    assert Distinct(all) by {
      forall i, j | 0 <= i < j < |all| ensures all[i] != all[j] {
        if i < |s.closedLog| <= j { assert all[i] == s.closedLog[i] && all[j] == s.lost[j - |s.closedLog|]; }
      }
    }
    forall r: Res | r in all ensures r < s.created && multiset(all)[r] == 1 {
      OnlyOnce(all, r);
    }
  }

  lemma LostIsOpen(s: System, loc: map<Res, Place>)
    requires Placed(s, loc) && s.lost != []
    ensures !EachOnce(s, s.closedLog)
  {
    hide Contents;
    EndPlaces(s);
    var r := s.lost[0];
    assert AllAt(Contents(s, Closed), loc, Closed) && AllAt(Contents(s, Lost), loc, Lost);
    assert r < s.created && r !in s.closedLog;
  }

  lemma EndPlaces(s: System)
    ensures Contents(s, Closed) == s.closedLog && Contents(s, Lost) == s.lost
  {
  }

  /** With every goroutine ended no grant is in flight. */
  lemma NoGrantLeft(s: System, place: Place)
    requires Channels(s) && s.book.closed && s.book.idle == [] && AllEnded(s)
    ensures place != Closed && place != Lost ==> Contents(s, place) == []
  {
    forall p | p in s.procs ensures p !in s.book.cells {
      assert ChannelOk(s.book, p, s.procs[p]);
    }
  }

  /** One caller returns its lease, and Close gives up waiting for the janitor: the resource is never closed. */
  const LEASING: seq<Action> := [Start(0), Lock(0), Create(0, true)]
  const RETURNING: seq<Action> := [Release(0), PutBackStep(0, 0)]
  const DROPPING: seq<Action> := [Shutdown(1), ShutdownExpired(1)]

  lemma CloseCanDrop()
    ensures var s := Run(Init(1), LEASING + (RETURNING + DROPPING));
            s.book.closed && AllEnded(s) && s.created == 1 && s.closedLog == [] && s.lost == [0]
    ensures EverDrops(Init(1), LEASING + (RETURNING + DROPPING))
  {
    hide Run, EverDrops;
    Leased(RETURNING + DROPPING);
    Returned(DROPPING);
    Dropped();
  }

  const LEASED := System(Book([], 1, 0, [], false, map[]), map[0 := Holding(0)], 1, [], [])
  const IDLE := System(Book([Entry(0, 0)], 0, 0, [], false, map[]), map[0 := Ended], 1, [], [])

  lemma Leased(rest: seq<Action>)
    ensures Run(Init(1), LEASING + rest) == Run(LEASED, rest)
    ensures EverDrops(Init(1), LEASING + rest) <==> EverDrops(LEASED, rest)
  {
    hide Run, EverDrops;
    var s := System(Book([], 0, 1, [], false, map[]), map[0 := Acquiring], 0, [], []);
    var t := System(Book([], 1, 0, [], false, map[]), map[0 := Creating], 0, [], []);
    assert LEASING + rest == [Start(0)] + ([Lock(0)] + ([Create(0, true)] + rest));
    Then(Init(1), Start(0), [Lock(0)] + ([Create(0, true)] + rest), s);
    Then(s, Lock(0), [Create(0, true)] + rest, t);
    Then(t, Create(0, true), rest, LEASED);
  }

  lemma Returned(rest: seq<Action>)
    ensures Run(LEASED, RETURNING + rest) == Run(IDLE, rest)
    ensures EverDrops(LEASED, RETURNING + rest) <==> EverDrops(IDLE, rest)
  {
    hide Run, EverDrops;
    var s := LEASED.(procs := map[0 := Releasing(0)]);
    assert RETURNING + rest == [Release(0)] + ([PutBackStep(0, 0)] + rest);
    Then(LEASED, Release(0), [PutBackStep(0, 0)] + rest, s);
    Then(s, PutBackStep(0, 0), rest, IDLE);
  }

  lemma Dropped()
    ensures var s := Run(IDLE, DROPPING);
            s.book.closed && AllEnded(s) && s.created == 1 && s.closedLog == [] && s.lost == [0]
    ensures EverDrops(IDLE, DROPPING)
  {
    hide Run, EverDrops;
    var closed := Book([], 0, 0, [], true, map[]);
    var s := System(closed, map[0 := Ended, 1 := ShuttingDown([0])], 1, [], []);
    var t := System(closed, map[0 := Ended, 1 := Ended], 1, [], [0]);
    assert DROPPING == [Shutdown(1)] + ([ShutdownExpired(1)] + []);
    assert Shut(IDLE.book) == (closed, [0]) by { assert Resources([Entry(0, 0)]) == [0]; }
    Then(IDLE, Shutdown(1), [ShutdownExpired(1)] + [], s);
    Then(s, ShutdownExpired(1), [], t);
    NoMore(t);
  }

  lemma Then(s: System, a: Action, rest: seq<Action>, t: System)
    requires t == Step(s, a)
    ensures Run(s, [a] + rest) == Run(t, rest)
    ensures EverDrops(s, [a] + rest) <==> Drops(s, a) || EverDrops(t, rest)
  {
    hide Step;
    assert ([a] + rest)[1..] == rest;
  }

  lemma NoMore(s: System)
    ensures Run(s, []) == s
  {
  }

  lemma {:induction false} OnlyOnce(q: seq<nat>, r: nat)
    requires Distinct(q) && r in q
    ensures multiset(q)[r] == 1
  {
    var i :| 0 <= i < |q| && q[i] == r;
    assert q == q[..i] + [r] + q[i + 1..];
    assert r !in q[..i] && r !in q[i + 1..];
  }
}
