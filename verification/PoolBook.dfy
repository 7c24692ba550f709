/** The connection pool's lock-held regions. Book is the state guarded by the
    mutex together with the one-slot grant channels; each region is a function
    on it, and the class Pool computes exactly those functions in place. */
module PoolBook {

  /** A resource is named by the order in which it was created. */
  type Res = nat
  /** An Acquire call; it owns at most one grant channel at a time, named after it. */
  type Pid = nat

  datatype Entry = Entry(resource: Res, lastUsed: int)

  /** What a releaser hands a waiter: a resource, or the permit to create one. */
  datatype Grant = Lend(resource: Res) | Permit

  datatype Book = Book(
    idle: seq<Entry>, leased: int, freeSlots: int, waiters: seq<Pid>, closed: bool,
    cells: map<Pid, Grant>)

  // ---- the regions as functions ----

  /** Hand idle resources, then free slots, to the queue's head until one side runs out. */
  function GrantAvailable(b: Book): Book
    decreases |b.waiters|
  {
    if |b.waiters| == 0 then b
    else if |b.idle| > 0 then
      var n := |b.idle| - 1;
      GrantAvailable(b.(idle := b.idle[..n], leased := b.leased + 1,
                        waiters := b.waiters[1..], cells := b.cells[b.waiters[0] := Lend(b.idle[n].resource)]))
    else if b.freeSlots > 0 then
      GrantAvailable(b.(freeSlots := b.freeSlots - 1, leased := b.leased + 1,
                        waiters := b.waiters[1..], cells := b.cells[b.waiters[0] := Permit]))
    else b
  }

  function ReturnSlot(b: Book): Book {
    GrantAvailable(b.(leased := b.leased - 1, freeSlots := b.freeSlots + 1))
  }

  datatype Taken = Refused | TookIdle(resource: Res) | TookSlot | Queued

  function Take(b: Book, p: Pid): (Book, Taken) {
    if b.closed then (b, Refused)
    else if |b.idle| > 0 then
      var n := |b.idle| - 1;
      (b.(idle := b.idle[..n], leased := b.leased + 1), TookIdle(b.idle[n].resource))
    else if b.freeSlots > 0 then
      (b.(freeSlots := b.freeSlots - 1, leased := b.leased + 1), TookSlot)
    else
      (b.(waiters := b.waiters + [p]), Queued)
  }

  /** Position of p in the queue, or the queue's length. */
  function IndexIn(q: seq<Pid>, p: Pid): (i: nat)
    ensures i <= |q| && (i < |q| <==> p in q) && (i < |q| ==> q[i] == p)
    ensures forall j :: 0 <= j < i ==> q[j] != p
  {
    if q == [] then 0 else if q[0] == p then 0 else 1 + IndexIn(q[1..], p)
  }

  function Without(q: seq<Pid>, p: Pid): seq<Pid> {
    var i := IndexIn(q, p);
    if i < |q| then q[..i] + q[i + 1..] else q
  }

  function RemoveWaiter(b: Book, p: Pid): (Book, bool) {
    (b.(waiters := Without(b.waiters, p)), p in b.waiters)
  }

  /** True when the caller has to close the resource itself. */
  function PutBack(b: Book, r: Res, now: int): (Book, bool) {
    if b.closed then (b.(leased := b.leased - 1), true)
    else if |b.waiters| > 0 then
      (b.(waiters := b.waiters[1..], cells := b.cells[b.waiters[0] := Lend(r)]), false)
    else
      (b.(leased := b.leased - 1, idle := b.idle + [Entry(r, now)]), false)
  }

  function Kept(idle: seq<Entry>, cutoff: int): seq<Entry> {
    if idle == [] then []
    else Kept(idle[..|idle| - 1], cutoff) + if idle[|idle| - 1].lastUsed < cutoff then [] else [idle[|idle| - 1]]
  }

  function Expired(idle: seq<Entry>, cutoff: int): seq<Res> {
    if idle == [] then []
    else Expired(idle[..|idle| - 1], cutoff) + if idle[|idle| - 1].lastUsed < cutoff then [idle[|idle| - 1].resource] else []
  }

  function Evict(b: Book, cutoff: int): (Book, seq<Res>) {
    var expired := Expired(b.idle, cutoff);
    var b' := b.(idle := Kept(b.idle, cutoff), freeSlots := b.freeSlots + |expired|);
    (if |expired| > 0 then GrantAvailable(b') else b', expired)
  }

  function Resources(idle: seq<Entry>): seq<Res> {
    seq(|idle|, i requires 0 <= i < |idle| => idle[i].resource)
  }

  function Shut(b: Book): (Book, seq<Res>) {
    (b.(closed := true, idle := []), Resources(b.idle))
  }

  // ---- the regions in place ----

  class Pool {
    const maxSize: nat
    var idle: seq<Entry>
    var leased: int
    var freeSlots: int
    var waiters: seq<Pid>
    var closed: bool
    var cells: map<Pid, Grant>

    function View(): Book
      reads this
    {
      Book(idle, leased, freeSlots, waiters, closed, cells)
    }

    /** A configured size that is not positive selects the default of eight. */
    constructor (configured: int)
      ensures maxSize == if configured <= 0 then 8 else configured
      ensures View() == Book([], 0, maxSize, [], false, map[])
    {
      var size := if configured <= 0 then 8 else configured;
      maxSize := size;
      idle, leased, freeSlots, waiters, closed, cells := [], 0, size, [], false, map[];
    }

    method PopWaiter() returns (w: Pid)
      requires |waiters| > 0
      modifies this`waiters
      ensures w == old(waiters)[0] && waiters == old(waiters)[1..]
    {
      w := waiters[0];
      waiters := waiters[1..];
    }

    method GrantAll()
      modifies this
      ensures View() == GrantAvailable(old(View()))
    {
      while |waiters| > 0 && (|idle| > 0 || freeSlots > 0)
        invariant GrantAvailable(View()) == GrantAvailable(old(View()))
        decreases |waiters|
      {
        if |idle| > 0 {
          var n := |idle| - 1;
          var e := idle[n];
          idle := idle[..n];
          leased := leased + 1;
          var w := PopWaiter();
          cells := cells[w := Lend(e.resource)];
        } else {
          freeSlots := freeSlots - 1;
          leased := leased + 1;
          var w := PopWaiter();
          cells := cells[w := Permit];
        }
      }
    }

    /** The region shared by a failed validation, a failed creation, an abandoned permit and a discard. */
    method GiveSlotBack()
      modifies this
      ensures View() == ReturnSlot(old(View()))
    {
      leased := leased - 1;
      freeSlots := freeSlots + 1;
      GrantAll();
    }

    method TakeOrQueue(p: Pid) returns (t: Taken)
      modifies this
      ensures (View(), t) == Take(old(View()), p)
    {
      if closed {
        return Refused;
      }
      if |idle| > 0 {
        var e := idle[|idle| - 1];
        idle := idle[..|idle| - 1];
        leased := leased + 1;
        return TookIdle(e.resource);
      }
      if freeSlots > 0 {
        freeSlots := freeSlots - 1;
        leased := leased + 1;
        return TookSlot;
      }
      waiters := waiters + [p];
      t := Queued;
    }

    method Forget(p: Pid) returns (found: bool)
      modifies this`waiters
      ensures (View(), found) == RemoveWaiter(old(View()), p)
    {
      for i := 0 to |waiters|
        invariant waiters == old(waiters)
        invariant forall j :: 0 <= j < i ==> waiters[j] != p
      {
        if waiters[i] == p {
          assert IndexIn(waiters, p) == i;
          waiters := waiters[..i] + waiters[i + 1..];
          return true;
        }
      }
      found := false;
    }

    method Restore(r: Res, now: int) returns (close: bool)
      modifies this
      ensures (View(), close) == PutBack(old(View()), r, now)
    {
      if closed {
        leased := leased - 1;
        return true;
      }
      if |waiters| > 0 {
        var w := PopWaiter();
        cells := cells[w := Lend(r)];
        return false;
      }
      leased := leased - 1;
      idle := idle + [Entry(r, now)];
      close := false;
    }

    method EvictExpired(cutoff: int) returns (expired: seq<Res>)
      modifies this
      ensures (View(), expired) == Evict(old(View()), cutoff)
    {
      var kept: seq<Entry> := [];
      expired := [];
      for i := 0 to |idle|
        invariant idle == old(idle) && leased == old(leased) && waiters == old(waiters) && closed == old(closed) && cells == old(cells)
        invariant kept == Kept(idle[..i], cutoff) && expired == Expired(idle[..i], cutoff)
        invariant freeSlots == old(freeSlots) + |expired|
      {
        assert idle[..i + 1][..i] == idle[..i];
        if idle[i].lastUsed < cutoff {
          expired := expired + [idle[i].resource];
          freeSlots := freeSlots + 1;
        } else {
          kept := kept + [idle[i]];
        }
      }
      assert idle[..|idle|] == idle;
      idle := kept;
      if |expired| > 0 {
        GrantAll();
      }
    }

    method CloseLocked() returns (already: bool, rest: seq<Res>)
      modifies this
      ensures already == old(closed)
      ensures already ==> View() == old(View()) && rest == []
      ensures !already ==> (View(), rest) == Shut(old(View()))
    {
      if closed {
        return true, [];
      }
      closed := true;
      rest := Resources(idle);
      idle := [];
      already := false;
    }
  }
}
