/**
 The event loop (eloop.c) over either of its backends (kevent_loop.c, epoll_loop.c). `kernel` is what
 the kernel watches: for each registered descriptor, the read and write bits it reports.
 */
module EventLoop {
  import opened Sequences

  /** Event masks: every bit eloop.h defines is among the low eight. */
  type Mask = bv8

  const EVT_ADD: Mask := 0
  const EVT_READ: Mask := 1
  const EVT_WRITE: Mask := 2
  const EVT_DELETE: Mask := 4

  const EVT_ERR := 0
  const EVT_OK := 1

  datatype Backend = Kqueue | Epoll

  datatype Evt<C> = Evt(mask: Mask, read: C, write: C)

  /** The bits of a and those of b. */
  function With(a: Mask, b: Mask): Mask {
    a | b
  }

  /** The bits of a that are not in b. */
  function Without(a: Mask, b: Mask): Mask {
    a & !b
  }

  /** The bits a kernel can watch for. */
  function Watchable(m: Mask): Mask {
    m & (EVT_READ | EVT_WRITE)
  }

  function Watched(kernel: map<nat, Mask>, fd: nat): Mask {
    if fd in kernel then kernel[fd] else 0
  }

  function Masks<C>(idle: seq<Evt<C>>): (m: seq<Mask>)
    ensures |m| == |idle| && forall i :: 0 <= i < |idle| ==> m[i] == idle[i].mask
  {
    seq(|idle|, i requires 0 <= i < |idle| => idle[i].mask)
  }

  lemma MasksUpdate<C>(idle: seq<Evt<C>>, fd: nat, ev: Evt<C>)
    requires fd < |idle|
    ensures Masks(idle[fd := ev]) == Masks(idle)[fd := ev.mask]
  {
  }

  // ----- the highest registered descriptor -----

  /** max is the greatest descriptor with a non-zero mask, or -1. */
  ghost predicate IsMax(masks: seq<Mask>, max: int) {
    -1 <= max < |masks| && (max >= 0 ==> masks[max] != 0) && forall i :: max < i < |masks| ==> masks[i] == 0
  }

  /** An addition keeps `max` right exactly when it registers something or the descriptor is not beyond it. */
  lemma AddKeepsMaxIff(masks: seq<Mask>, max: int, fd: nat, mask: Mask)
    requires IsMax(masks, max) && fd < |masks|
    ensures IsMax(masks[fd := With(masks[fd], mask)], if fd > max then fd else max) <==> mask != 0 || fd <= max
  {
  }

  /** The greatest descriptor below n with a non-zero mask, or -1. */
  function Highest(masks: seq<Mask>, n: nat): (h: int)
    requires n <= |masks|
    ensures -1 <= h < n && (h >= 0 ==> masks[h] != 0) && forall i :: h < i < n ==> masks[i] == 0
  {
    if n == 0 then -1 else if masks[n - 1] != 0 then n - 1 else Highest(masks, n - 1)
  }

  /** `max` after fd's mask has become what it is in `masks`: found by looking down when `max` itself was left with nothing. */
  function MaxAfterDrop(masks: seq<Mask>, max: int, fd: nat): (m: int)
    requires fd < |masks|
  {
    if fd == max && masks[fd] == EVT_ADD then Highest(masks, fd) else max
  }

  /** A `max` that was right before a deletion is right after it. */
  lemma DropKeepsMax(masks: seq<Mask>, max: int, fd: nat, mask: Mask)
    requires fd < |masks| && IsMax(masks, max)
    ensures var m := masks[fd := Without(masks[fd], mask)]; IsMax(m, MaxAfterDrop(m, max, fd))
  {
    NothingLeft(mask);
  }

  lemma NothingLeft(mask: Mask)
    ensures Without(0, mask) == 0
  {
  }

  // ----- the kernel and the masks -----

  /** The kernel watches exactly the bits the loop knows of. */
  ghost predicate InStep(masks: seq<Mask>, kernel: map<nat, Mask>) {
    forall fd :: 0 <= fd < |masks| ==> Watched(kernel, fd) == Watchable(masks[fd])
  }

  /** Every bit of a is in b. */
  predicate Within(a: Mask, b: Mask) {
    a & !b == 0
  }

  /** The kernel watches at least the bits the loop knows of. */
  ghost predicate Contained(masks: seq<Mask>, kernel: map<nat, Mask>) {
    forall fd :: 0 <= fd < |masks| ==> Within(Watchable(masks[fd]), Watched(kernel, fd))
  }

  lemma NothingOutside(m: Mask)
    ensures m & !m == 0
  {
  }

  /** Only the registration of fd may differ. */
  ghost predicate Elsewhere(before: map<nat, Mask>, after: map<nat, Mask>, fd: nat) {
    after - {fd} == before - {fd}
  }

  /** What masks in step mean for the kernel: it watches for reading, and for writing, exactly where the loop does. */
  lemma InStepMeans(masks: seq<Mask>, kernel: map<nat, Mask>, fd: nat)
    requires InStep(masks, kernel) && fd < |masks|
    ensures Watched(kernel, fd) & EVT_READ != 0 <==> masks[fd] & EVT_READ != 0
    ensures Watched(kernel, fd) & EVT_WRITE != 0 <==> masks[fd] & EVT_WRITE != 0
    ensures Watched(kernel, fd) == 0 <==> masks[fd] & EVT_READ == 0 && masks[fd] & EVT_WRITE == 0
  {
    BitsMean(masks[fd], Watched(kernel, fd));
  }

  lemma ContainedMeans(masks: seq<Mask>, kernel: map<nat, Mask>, fd: nat)
    requires Contained(masks, kernel) && fd < |masks|
    ensures masks[fd] & EVT_READ != 0 ==> Watched(kernel, fd) & EVT_READ != 0
    ensures masks[fd] & EVT_WRITE != 0 ==> Watched(kernel, fd) & EVT_WRITE != 0
  {
    BitsMean(masks[fd], Watched(kernel, fd));
  }

  /** The operations on masks, bit by bit. */
  lemma BitsMean(a: Mask, b: Mask)
    ensures Watchable(a) & EVT_READ != 0 <==> a & EVT_READ != 0
    ensures Watchable(a) & EVT_WRITE != 0 <==> a & EVT_WRITE != 0
    ensures Watchable(a) == 0 <==> a & EVT_READ == 0 && a & EVT_WRITE == 0
    ensures Within(Watchable(a), b) <==>
            (a & EVT_READ != 0 ==> b & EVT_READ != 0) && (a & EVT_WRITE != 0 ==> b & EVT_WRITE != 0)
    ensures Without(a, b) & EVT_READ != 0 <==> a & EVT_READ != 0 && b & EVT_READ == 0
    ensures Without(a, b) & EVT_WRITE != 0 <==> a & EVT_WRITE != 0 && b & EVT_WRITE == 0
    ensures Without(a, b) | (a & b) == a && Without(a, b) & b == 0
    ensures With(a, b) & EVT_READ != 0 <==> a & EVT_READ != 0 || b & EVT_READ != 0
    ensures With(a, b) & EVT_WRITE != 0 <==> a & EVT_WRITE != 0 || b & EVT_WRITE != 0
    ensures With(a, 0) == a == With(0, a)
  {
  }

  // ----- the loop -----

  /** What an addition does to one registration: the mask grows, and only the callbacks it names are set. */
  function Updated<C>(ev: Evt<C>, mask: Mask, cb: C): Evt<C> {
    Evt(With(ev.mask, mask),
        if mask & EVT_READ != 0 then cb else ev.read,
        if mask & EVT_WRITE != 0 then cb else ev.write)
  }

  lemma UpdatedMeans<C>(ev: Evt<C>, mask: Mask, cb: C)
    ensures Updated(ev, mask, cb) ==
            Evt(With(ev.mask, mask), if mask & EVT_READ != 0 then cb else ev.read,
                if mask & EVT_WRITE != 0 then cb else ev.write)
  {
  }

  /** What an addition may do to the bits watched on its descriptor. */
  ghost predicate Added(backend: Backend, before: Mask, after: Mask, registered: Mask, mask: Mask, status: int) {
    match backend
    case Kqueue =>
      if status == EVT_OK then after == With(before, Watchable(mask))
      else after == before || (Watchable(mask) == EVT_READ | EVT_WRITE && after == With(before, EVT_READ))
    case Epoll =>
      after == if status == EVT_OK then Watchable(With(mask, registered)) else before
  }

  /** Epoll refuses to add what it watches already, and to modify what it does not; the loop's mask says which is asked for. */
  predicate Refused(backend: Backend, registered: Mask, watched: bool) {
    backend == Epoll && (registered == EVT_ADD <==> watched)
  }

  /** What a deletion may do to them. */
  ghost predicate Deleted(backend: Backend, before: Mask, after: Mask, registered: Mask, mask: Mask) {
    match backend
    case Kqueue => after == Without(before, Watchable(mask))
    case Epoll => after in {before, Watchable(registered), 0} && (after == 0 ==> before == 0 || Watchable(registered) == 0)
  }

  // ----- what is asked of the kernel -----

  datatype KernelOp = KqAdd | KqDelete | CtlAdd | CtlMod | CtlDel

  /** One call into the kernel, and whether it succeeded. */
  datatype Ask = Ask(op: KernelOp, fd: nat, bits: Mask, granted: bool)

  /** The calls of an addition: kqueue is asked for each bit in turn until it refuses one, epoll once for all bits. */
  ghost predicate AddAsks(backend: Backend, registered: Mask, fd: nat, mask: Mask, asks: seq<Ask>, status: int) {
    match backend
    case Kqueue =>
      var reading, writing := mask & EVT_READ != 0, mask & EVT_WRITE != 0;
      var read := if reading then [Ask(KqAdd, fd, EVT_READ, true)] else [];
      if status == EVT_OK then asks == read + if writing then [Ask(KqAdd, fd, EVT_WRITE, true)] else []
      else (reading && asks == [Ask(KqAdd, fd, EVT_READ, false)]) ||
           (writing && asks == read + [Ask(KqAdd, fd, EVT_WRITE, false)])
    case Epoll =>
      asks == [Ask(if registered == EVT_ADD then CtlAdd else CtlMod, fd, Watchable(With(mask, registered)), status == EVT_OK)]
  }

  /** The calls of a deletion, whatever they return: kqueue drops each bit named; epoll is asked to add what is registered. */
  ghost predicate DeleteAsks(backend: Backend, registered: Mask, fd: nat, mask: Mask, asks: seq<Ask>) {
    match backend
    case Kqueue =>
      var reading, writing := mask & EVT_READ != 0, mask & EVT_WRITE != 0;
      |asks| == (if reading then 1 else 0) + (if writing then 1 else 0) &&
      forall k :: 0 <= k < |asks| ==>
        asks[k] == Ask(KqDelete, fd, if k == 0 && reading then EVT_READ else EVT_WRITE, asks[k].granted)
    case Epoll =>
      |asks| == 1 &&
      asks[0] == Ask(if registered == EVT_DELETE then CtlDel else CtlAdd, fd, Watchable(registered), asks[0].granted)
  }

  // ----- one pass of the dispatch -----

  /** What a poll returned for one descriptor. */
  datatype Fired = Fired(fd: nat, mask: Mask)

  /**
   A callback made for the event at this index: its arguments (the descriptor and what fired), the bit it
   was made for, the callback itself, and the descriptor's registration when it was made.
   */
  datatype Call<C> = Call(event: nat, fd: nat, fired: Mask, bit: Mask, cb: C, ev: Evt<C>)

  /** The bit is registered and has fired. */
  predicate Due<C>(ev: Evt<C>, fired: Mask, bit: Mask) {
    ev.mask & fired & bit != 0
  }

  /**
   The callbacks made for one event, given the registration `ev` it found and the registration `mid` that
   a read callback left. Each is for a bit that had fired and was registered at that moment. The first is
   made for whatever was due, reading before writing. A second is made exactly when a read callback has
   left writing due and the two callbacks different.
   */
  ghost predicate Round<C>(event: nat, f: Fired, ev: Evt<C>, mid: Evt<C>, made: seq<Call<C>>) {
    |made| <= 2 &&
    (forall k :: 0 <= k < |made| ==>
       var c := made[k];
       c.event == event && c.fd == f.fd && c.fired == f.mask && c.bit in {EVT_READ, EVT_WRITE} && Due(c.ev, f.mask, c.bit) &&
       c.cb == if c.bit == EVT_READ then c.ev.read else c.ev.write) &&
    (made == [] <==> !Due(ev, f.mask, EVT_READ) && !Due(ev, f.mask, EVT_WRITE)) &&
    (made != [] ==> made[0].ev == ev && (made[0].bit == EVT_READ <==> Due(ev, f.mask, EVT_READ))) &&
    (|made| == 2 <==> Due(ev, f.mask, EVT_READ) && Due(mid, f.mask, EVT_WRITE) && mid.read != mid.write) &&
    (|made| == 2 ==> made[0].bit == EVT_READ && made[1].bit == EVT_WRITE && made[1].ev == mid)
  }

  /** In both, bit by bit. */
  lemma DueMeans(registered: Mask, fired: Mask)
    ensures registered & fired & EVT_READ != 0 <==> registered & EVT_READ != 0 && fired & EVT_READ != 0
    ensures registered & fired & EVT_WRITE != 0 <==> registered & EVT_WRITE != 0 && fired & EVT_WRITE != 0
  {
  }

  /** One event between two tables: without callbacks nothing changes, and after a read callback alone `mid` is what is left. */
  ghost predicate Turn<C>(event: nat, f: Fired, table: seq<Evt<C>>, mid: Evt<C>, made: seq<Call<C>>, next: seq<Evt<C>>) {
    f.fd < |table| == |next| && Round(event, f, table[f.fd], mid, made) &&
    (made == [] ==> next == table) &&
    (|made| == 1 && made[0].bit == EVT_READ ==> mid == next[f.fd])
  }

  /** A whole pass: the tables before each event and after the last, what read callbacks left, and the callbacks made. */
  ghost predicate Passed<C>(active: seq<Fired>, n: nat, tables: seq<seq<Evt<C>>>, mids: seq<Evt<C>>,
                            rounds: seq<seq<Call<C>>>)
  {
    n <= |active| && |tables| == n + 1 && |mids| == |rounds| == n &&
    forall i :: 0 <= i < n ==> Turn(i, active[i], tables[i], mids[i], rounds[i], tables[i + 1])
  }

  lemma PassedNothing<C>(active: seq<Fired>, table: seq<Evt<C>>)
    ensures Passed<C>(active, 0, [table], [], []) && Flatten<Call<C>>([]) == []
  {
  }

  lemma PassedNext<C>(active: seq<Fired>, n: nat, tables: seq<seq<Evt<C>>>, mids: seq<Evt<C>>, rounds: seq<seq<Call<C>>>,
                      mid: Evt<C>, made: seq<Call<C>>, next: seq<Evt<C>>)
    requires Passed(active, n, tables, mids, rounds) && n < |active|
    requires Turn(n, active[n], tables[n], mid, made, next)
    ensures Passed(active, n + 1, tables + [next], mids + [mid], rounds + [made])
    ensures Flatten(rounds + [made]) == Flatten(rounds) + made
  {
    hide Turn;
    assert (rounds + [made])[..|rounds|] == rounds;
  }

  /** In a pass an event is called back twice only if its callbacks differ by then: equal callbacks run once at most. */
  lemma EqualCallbacksRunOnce<C>(active: seq<Fired>, n: nat, tables: seq<seq<Evt<C>>>, mids: seq<Evt<C>>,
                                 rounds: seq<seq<Call<C>>>, i: nat)
    requires Passed(active, n, tables, mids, rounds) && i < n
    requires forall k :: 0 <= k < |rounds[i]| ==> rounds[i][k].ev.read == rounds[i][k].ev.write
    ensures |rounds[i]| <= 1
  {
    assert Turn(i, active[i], tables[i], mids[i], rounds[i], tables[i + 1]);
  }

  /**
   A pass in terms of bits: event i finds the mask m registered and the mask f fired. There is a callback
   exactly when the two share reading or writing; the first is for reading exactly when they share that.
   After a read callback there is a write callback exactly when the mask it left and f share writing and
   the callbacks it left differ.
   */
  lemma PassMeans<C>(active: seq<Fired>, n: nat, tables: seq<seq<Evt<C>>>, mids: seq<Evt<C>>, rounds: seq<seq<Call<C>>>, i: nat)
    requires Passed(active, n, tables, mids, rounds) && i < n
    ensures active[i].fd < |tables[i]|
    ensures var m, f, r := tables[i][active[i].fd].mask, active[i].mask, rounds[i];
            (r == [] <==> (m & EVT_READ == 0 || f & EVT_READ == 0) && (m & EVT_WRITE == 0 || f & EVT_WRITE == 0)) &&
            (r != [] ==> (r[0].bit == EVT_READ <==> m & EVT_READ != 0 && f & EVT_READ != 0)) &&
            (|r| == 2 <==> m & EVT_READ != 0 && f & EVT_READ != 0 &&
                           mids[i].mask & EVT_WRITE != 0 && f & EVT_WRITE != 0 && mids[i].read != mids[i].write)
  {
    assert Turn(i, active[i], tables[i], mids[i], rounds[i], tables[i + 1]);
    DueMeans(tables[i][active[i].fd].mask, active[i].mask);
    DueMeans(mids[i].mask, active[i].mask);
  }

  /**
   Every callback of a pass ran for a bit that had fired and was registered at that moment, with the
   descriptor and the fired mask of its event, and was the one registered for that bit.
   */
  lemma {:induction false} CallsWereDue<C>(active: seq<Fired>, n: nat, tables: seq<seq<Evt<C>>>, mids: seq<Evt<C>>,
                                           rounds: seq<seq<Call<C>>>, c: Call<C>)
    requires Passed(active, n, tables, mids, rounds) && c in Flatten(rounds)
    ensures c.event < n && c.fd == active[c.event].fd && c.fired == active[c.event].mask
    ensures c.bit in {EVT_READ, EVT_WRITE} && c.ev.mask & c.bit != 0 && active[c.event].mask & c.bit != 0
    ensures c.cb == if c.bit == EVT_READ then c.ev.read else c.ev.write
    decreases n
  {
    hide Round;
    if n > 0 {
      var m := n - 1;
      assert Turn(m, active[m], tables[m], mids[m], rounds[m], tables[m + 1]);
      if c in rounds[m] {
        CallWasDue(m, active[m], tables[m][active[m].fd], mids[m], rounds[m], c);
      } else {
        CallsWereDue(active, m, tables[..n], mids[..m], rounds[..m], c);
      }
    }
  }

  lemma CallWasDue<C>(event: nat, f: Fired, ev: Evt<C>, mid: Evt<C>, made: seq<Call<C>>, c: Call<C>)
    requires Round(event, f, ev, mid, made) && c in made
    ensures c.event == event && c.fd == f.fd && c.fired == f.mask
    ensures c.bit in {EVT_READ, EVT_WRITE} && c.ev.mask & c.bit != 0 && f.mask & c.bit != 0
    ensures c.cb == if c.bit == EVT_READ then c.ev.read else c.ev.write
  {
    var k :| 0 <= k < |made| && made[k] == c;
    DueMeans(c.ev.mask, f.mask);
  }

  class EventLoop<C(0,==)> {
    const count: nat
    const backend: Backend
    var max: int
    const idle: array<Evt<C>>
    var kernel: map<nat, Mask>
    ghost var calls: seq<Call<C>>
    ghost var asked: seq<Ask>

    ghost predicate Valid()
      reads this, idle
    {
      idle.Length == count && -1 <= max < count
    }

    /** The loop's masks, by descriptor. */
    ghost function Registered(): seq<Mask>
      reads this, idle
    {
      Masks(idle[..])
    }

    ghost function State(): LoopState
      reads this, idle
    {
      LoopState(Registered(), max, kernel)
    }

    ghost predicate MaxRight()
      reads this, idle
    {
      IsMax(Registered(), max)
    }

    /** eloopCreate */
    constructor (count: nat, backend: Backend)
      ensures Valid() && MaxRight() && fresh(idle) && this.count == count && this.backend == backend
      ensures max == -1 && kernel == map[] && asked == [] && forall i :: 0 <= i < count ==> idle[i].mask == EVT_ADD
    {
      this.count, this.backend := count, backend;
      max, kernel, calls, asked := -1, map[], [], [];
      idle := new Evt<C>[count];
      new;
      for i := 0 to count
        invariant forall k :: 0 <= k < i ==> idle[k].mask == EVT_ADD
        modifies idle
      {
        idle[i] := idle[i].(mask := EVT_ADD);
      }
    }

    /** eloopStateAdd of whichever backend was compiled in. */
    method StateAdd(fd: nat, mask: Mask) returns (status: int)
      requires fd < idle.Length
      modifies this`kernel, this`asked
      ensures status in {EVT_OK, EVT_ERR} && Elsewhere(old(kernel), kernel, fd)
      ensures Added(backend, Watched(old(kernel), fd), Watched(kernel, fd), idle[fd].mask, mask, status)
      ensures Refused(backend, idle[fd].mask, fd in old(kernel)) ==> status == EVT_ERR
      ensures backend == Epoll && status == EVT_ERR ==> kernel == old(kernel)
      ensures old(asked) <= asked && AddAsks(backend, idle[fd].mask, fd, mask, asked[|old(asked)|..], status)
    {
      hide Watchable;
      match backend {
        case Kqueue => status := KqueueStateAdd(fd, mask);
        case Epoll => status := EpollStateAdd(fd, mask);
      }
    }

    /** eloopStateDelete of whichever backend was compiled in. */
    method StateDelete(fd: nat, mask: Mask)
      requires fd < idle.Length
      modifies this`kernel, this`asked
      ensures Elsewhere(old(kernel), kernel, fd)
      ensures Deleted(backend, Watched(old(kernel), fd), Watched(kernel, fd), idle[fd].mask, mask)
      ensures backend == Epoll && fd in old(kernel) && idle[fd].mask != EVT_DELETE ==> kernel == old(kernel)
      ensures old(asked) <= asked && DeleteAsks(backend, idle[fd].mask, fd, mask, asked[|old(asked)|..])
    {
      hide Watchable;
      match backend {
        case Kqueue => KqueueStateDelete(fd, mask);
        case Epoll => EpollStateDelete(fd, mask);
      }
    }

    /** eloopAddEvent */
    method AddEvent(fd: nat, mask: Mask, cb: C) returns (status: int)
      requires Valid()
      modifies this`kernel, this`asked, this`max, idle
      ensures Valid() && status in {EVT_OK, EVT_ERR}
      ensures fd >= count ==> status == EVT_ERR && State() == old(State())
      ensures status == EVT_ERR ==> idle[..] == old(idle[..])
      ensures status == EVT_OK ==>
                idle[..] == old(idle[..])[fd := Updated(old(idle[fd]), mask, cb)]
      ensures status == EVT_OK ==>
                idle[fd].mask == With(old(idle[fd].mask), mask) &&
                idle[fd].read == (if mask & EVT_READ != 0 then cb else old(idle[fd].read)) &&
                idle[fd].write == (if mask & EVT_WRITE != 0 then cb else old(idle[fd].write))
      ensures fd < count ==> Step(backend, old(State()), AddOp(fd, mask, status), State())
      ensures if fd >= count then asked == old(asked)
              else old(asked) <= asked && AddAsks(backend, old(idle[fd].mask), fd, mask, asked[|old(asked)|..], status)
    {
      hide With, AddAsks, Added, Watched, Elsewhere, Step, IsMax, Watchable, Masks, Updated, Refused;
      if fd >= count {
        return EVT_ERR;
      }
      ghost var s := State();
      status := StateAdd(fd, mask);
      if status == EVT_ERR {
        AddIsStep(backend, s, State(), fd, mask, status);
        return;
      }
      Register(fd, mask, cb);
      AddIsStep(backend, s, State(), fd, mask, status);
    }

    /** The part of eloopAddEvent after the backend: the mask, the callbacks, and `max`. */
    method Register(fd: nat, mask: Mask, cb: C)
      requires Valid() && fd < count
      modifies this`max, idle
      ensures Valid() && max == if fd > old(max) then fd else old(max)
      ensures idle[..] == old(idle[..])[fd := Updated(old(idle[fd]), mask, cb)]
      ensures Registered() == old(Registered())[fd := With(old(Registered())[fd], mask)]
      ensures idle[fd] == Evt(With(old(idle[fd].mask), mask), if mask & EVT_READ != 0 then cb else old(idle[fd].read),
                              if mask & EVT_WRITE != 0 then cb else old(idle[fd].write))
    {
      hide Masks, Updated, With;
      UpdatedMeans(idle[fd], mask, cb);
      ghost var before := idle[..];
      idle[fd] := Updated(idle[fd], mask, cb);
      if fd > max {
        max := fd;
      }
      assert idle[..] == before[fd := idle[fd]];
      MasksUpdate(before, fd, idle[fd]);
    }

    /** eloopDeleteEvent: after the highest descriptor goes, the next one down is found by looking. */
    method DeleteEvent(fd: nat, mask: Mask)
      requires Valid()
      modifies this`kernel, this`asked, this`max, idle
      ensures Valid() && (fd >= count ==> State() == old(State()))
      ensures fd >= count || old(idle[fd]).mask == EVT_ADD ==> idle[..] == old(idle[..]) && kernel == old(kernel)
      ensures fd < count ==> idle[..] == old(idle[..])[fd := old(idle[fd]).(mask := Without(old(idle[fd]).mask, mask))]
      ensures fd < count ==> Step(backend, old(State()), DeleteOp(fd, mask), State())
      ensures if fd >= count || old(idle[fd].mask) == EVT_ADD then asked == old(asked)
              else old(asked) <= asked && DeleteAsks(backend, old(idle[fd].mask), fd, mask, asked[|old(asked)|..])
      ensures backend == Epoll && fd in old(kernel) && fd < count && old(idle[fd]).mask != EVT_DELETE ==> kernel == old(kernel)
    {
      hide DeleteAsks, Deleted, Watched, Elsewhere, Step, IsMax, Watchable, Masks, Without;
      ElsewhereSame(kernel, fd);
      NothingLeft(mask);
      ghost var s := State();
      if fd >= count {
        return;
      }
      if idle[fd].mask == EVT_ADD {
        assert s.masks[fd := s.masks[fd]] == s.masks;
        DeleteIsStep(backend, s, s, fd, mask);
        return;
      }
      StateDelete(fd, mask);
      DropBits(fd, mask);
      DeleteIsStep(backend, s, State(), fd, mask);
    }

    /** The part of eloopDeleteEvent after the backend: the mask, and `max` if it was the highest. */
    method DropBits(fd: nat, mask: Mask)
      requires Valid() && fd < count
      modifies this`max, idle
      ensures Valid() && max == MaxAfterDrop(Registered(), old(max), fd)
      ensures idle[..] == old(idle[..])[fd := old(idle[fd]).(mask := Without(old(idle[fd]).mask, mask))]
      ensures Registered() == old(Registered())[fd := Without(old(Registered())[fd], mask)]
    {
      hide Masks, Without, Highest;
      ghost var before := idle[..];
      idle[fd] := idle[fd].(mask := Without(idle[fd].mask, mask));
      assert idle[..] == before[fd := idle[fd]];
      MasksUpdate(before, fd, idle[fd]);
      if fd == max && idle[fd].mask == EVT_ADD {
        FindMax();
      }
    }

    /** The scan down from the descriptor that has just lost its last bit. */
    method FindMax()
      requires Valid() && max >= 0
      modifies this`max
      ensures Valid() && max == Highest(Registered(), old(max))
    {
      var i := max - 1;
      while i >= 0
        invariant -1 <= i < max
        invariant Highest(Registered(), max) == Highest(Registered(), i + 1)
      {
        if idle[i].mask != EVT_ADD {
          break;
        }
        i := i - 1;
      }
      max := i;
    }

    /** A callback. It may add and delete events and close descriptors, any number of times. */
    method Invoke(event: nat, fd: nat, fired: Mask, bit: Mask, cb: C)
      requires Valid() && fd < count
      modifies this`kernel, this`asked, this`max, this`calls, idle
      ensures Valid() && calls == old(calls) + [Call(event, fd, fired, bit, cb, old(idle[fd]))]
    {
      calls := calls + [Call(event, fd, fired, bit, cb, idle[fd])];
      var uses :| uses >= 0;
      for u := 0 to uses
        invariant Valid() && calls == old(calls) + [Call(event, fd, fired, bit, cb, old(idle[fd]))]
      {
        var f: nat, mask: Mask, other: C := *, *, *;
        if * {
          var _ := AddEvent(f, mask, other);
        } else if * {
          DeleteEvent(f, mask);
        } else {
          kernel := kernel - {f};
        }
      }
    }

    /** The body of the dispatch loop. */
    method ProcessOne(event: nat, fd: nat, mask: Mask) returns (ghost mid: Evt<C>, ghost made: seq<Call<C>>)
      requires Valid() && fd < count
      modifies this`kernel, this`asked, this`max, this`calls, idle
      ensures Valid() && calls == old(calls) + made
      ensures Turn(event, Fired(fd, mask), old(idle[..]), mid, made, idle[..])
      ensures made == [] ==> State() == old(State())
    {
      hide Masks;
      var fired := 0;
      var ev := idle[fd];
      made := [];
      if ev.mask & mask & EVT_READ != 0 {
        made := [Call(event, fd, mask, EVT_READ, ev.read, ev)];
        Invoke(event, fd, mask, EVT_READ, ev.read);
        fired := fired + 1;
        ev := idle[fd];
      }
      mid := ev;
      if ev.mask & mask & EVT_WRITE != 0 {
        if fired == 0 || ev.read != ev.write {
          made := made + [Call(event, fd, mask, EVT_WRITE, ev.write, ev)];
          Invoke(event, fd, mask, EVT_WRITE, ev.write);
          fired := fired + 1;
        }
      }
    }

    /** eloopProcessEvents, on what the poll returned. An empty loop does not poll. */
    method ProcessEvents(active: seq<Fired>)
      returns (processed: nat, ghost tables: seq<seq<Evt<C>>>, ghost mids: seq<Evt<C>>, ghost rounds: seq<seq<Call<C>>>)
      requires Valid() && forall i :: 0 <= i < |active| ==> active[i].fd < count
      modifies this`kernel, this`asked, this`max, this`calls, idle
      ensures Valid() && processed == if old(max) == -1 then 0 else |active|
      ensures calls == old(calls) + Flatten(rounds) && Passed(active, processed, tables, mids, rounds)
      ensures tables[0] == old(idle[..]) && tables[processed] == idle[..]
      ensures old(max) == -1 ==> State() == old(State())
    {
      hide Turn, Passed;
      processed, tables, mids, rounds := 0, [idle[..]], [], [];
      PassedNothing(active, idle[..]);
      if max == -1 {
        return;
      }
      for i := 0 to |active|
        invariant Valid() && processed == i && |tables| == i + 1 && |mids| == |rounds| == i
        invariant tables[0] == old(idle[..]) && tables[i] == idle[..]
        invariant calls == old(calls) + Flatten(rounds) && Passed(active, i, tables, mids, rounds)
      {
        ghost var mid, made := ProcessOne(i, active[i].fd, active[i].mask);
        PassedNext(active, i, tables, mids, rounds, mid, made, idle[..]);
        tables, mids, rounds := tables + [idle[..]], mids + [mid], rounds + [made];
        processed := processed + 1;
      }
    }

    // ----- kqueue -----

    /** One kevent call with EV_ADD: it may fail, and then changes nothing. */
    method KqueueAdd(fd: nat, filter: Mask) returns (rc: int)
      modifies this`kernel, this`asked
      ensures rc == -1 ==> kernel == old(kernel)
      ensures rc != -1 ==> kernel == old(kernel)[fd := With(Watched(old(kernel), fd), filter)]
      ensures asked == old(asked) + [Ask(KqAdd, fd, filter, rc != -1)]
    {
      if * {
        rc := -1;
      } else {
        rc := 0;
        kernel := kernel[fd := With(Watched(kernel, fd), filter)];
      }
      asked := asked + [Ask(KqAdd, fd, filter, rc != -1)];
    }

    /** One kevent call with EV_DELETE: a filter that is not there stays not there. */
    method KqueueDelete(fd: nat, filter: Mask)
      modifies this`kernel, this`asked
      ensures Elsewhere(old(kernel), kernel, fd) && Watched(kernel, fd) == Without(Watched(old(kernel), fd), filter)
      ensures asked == old(asked) + [Ask(KqDelete, fd, filter, fd in old(kernel))]
    {
      asked := asked + [Ask(KqDelete, fd, filter, fd in kernel)];
      if fd in kernel {
        kernel := kernel[fd := Without(kernel[fd], filter)];
      } else {
        NothingLeft(filter);
      }
    }

    /** eloopStateAdd in kevent_loop.c: two filters, two calls, and no undoing of the first if the second fails. */
    method KqueueStateAdd(fd: nat, mask: Mask) returns (status: int)
      modifies this`kernel, this`asked
      ensures status in {EVT_OK, EVT_ERR} && Elsewhere(old(kernel), kernel, fd)
      ensures status == EVT_OK ==> Watched(kernel, fd) == With(Watched(old(kernel), fd), Watchable(mask))
      ensures status == EVT_ERR ==>
                Watched(kernel, fd) == Watched(old(kernel), fd) ||
                (Watchable(mask) == EVT_READ | EVT_WRITE && Watched(kernel, fd) == With(Watched(old(kernel), fd), EVT_READ))
      ensures old(asked) <= asked && AddAsks(Kqueue, EVT_ADD, fd, mask, asked[|old(asked)|..], status)
    {
      hide Watchable, With;
      TwoBits(Watched(kernel, fd), mask);
      ghost var before := asked;
      if mask & EVT_READ != 0 {
        var rc := KqueueAdd(fd, EVT_READ);
        Asked(before, asked, [Ask(KqAdd, fd, EVT_READ, rc != -1)]);
        if rc == -1 {
          return EVT_ERR;
        }
      }
      if mask & EVT_WRITE != 0 {
        ghost var between := asked[|before|..];
        var rc := KqueueAdd(fd, EVT_WRITE);
        Asked(before, asked, between + [Ask(KqAdd, fd, EVT_WRITE, rc != -1)]);
        if rc == -1 {
          return EVT_ERR;
        }
      }
      status := EVT_OK;
    }

    /** eloopStateDelete in kevent_loop.c */
    method KqueueStateDelete(fd: nat, mask: Mask)
      modifies this`kernel, this`asked
      ensures Elsewhere(old(kernel), kernel, fd)
      ensures Watched(kernel, fd) == Without(Watched(old(kernel), fd), Watchable(mask))
      ensures old(asked) <= asked && DeleteAsks(Kqueue, EVT_ADD, fd, mask, asked[|old(asked)|..])
    {
      hide Watchable, DeleteAsks, Watched, Elsewhere, Without;
      TwoDrops(Watched(kernel, fd), mask);
      ElsewhereSame(kernel, fd);
      ghost var before, kept := asked, kernel;
      ghost var read: seq<Ask>, write: seq<Ask> := [], [];
      if mask & EVT_READ != 0 {
        read := [Ask(KqDelete, fd, EVT_READ, fd in kernel)];
        KqueueDelete(fd, EVT_READ);
      }
      ghost var between := kernel;
      if mask & EVT_WRITE != 0 {
        write := [Ask(KqDelete, fd, EVT_WRITE, fd in kernel)];
        KqueueDelete(fd, EVT_WRITE);
      }
      ElsewhereTwice(kept, between, kernel, fd);
      Asked(before, asked, read + write);
      TwoAsks(fd, mask, read, write);
    }

    // ----- epoll -----

    /** epoll_ctl: adding fails if the descriptor is registered, modifying if it is not; both may fail for other reasons. */
    method EpollCtl(op: KernelOp, fd: nat, events: Mask) returns (rc: int)
      modifies this`kernel, this`asked
      ensures rc == -1 ==> kernel == old(kernel)
      ensures op == CtlAdd && fd in old(kernel) ==> rc == -1
      ensures op == CtlMod && fd !in old(kernel) ==> rc == -1
      ensures rc != -1 ==> kernel == if op == CtlDel then old(kernel) - {fd} else old(kernel)[fd := events]
      ensures asked == old(asked) + [Ask(op, fd, events, rc != -1)]
    {
      if * {
        rc := -1;
      } else if (op == CtlAdd && fd in kernel) || (op != CtlAdd && fd !in kernel) {
        rc := -1;
      } else {
        rc := 0;
        kernel := if op == CtlDel then kernel - {fd} else kernel[fd := events];
      }
      asked := asked + [Ask(op, fd, events, rc != -1)];
    }

    /** eloopStateAdd in epoll_loop.c: the loop's mask, not the kernel, says whether the descriptor is new. */
    method EpollStateAdd(fd: nat, mask: Mask) returns (status: int)
      requires fd < idle.Length
      modifies this`kernel, this`asked
      ensures status in {EVT_OK, EVT_ERR}
      ensures status == EVT_ERR ==> kernel == old(kernel)
      ensures status == EVT_OK ==> kernel == old(kernel)[fd := Watchable(With(mask, idle[fd].mask))]
      ensures (idle[fd].mask == EVT_ADD <==> fd in old(kernel)) ==> status == EVT_ERR
      ensures old(asked) <= asked && AddAsks(Epoll, idle[fd].mask, fd, mask, asked[|old(asked)|..], status)
    {
      hide Watchable, AddAsks, With;
      ghost var before := asked;
      var op := if idle[fd].mask == EVT_ADD then CtlAdd else CtlMod;
      var rc := EpollCtl(op, fd, Watchable(With(mask, idle[fd].mask)));
      status := if rc == -1 then EVT_ERR else EVT_OK;
      AddAsked(before, asked, idle[fd].mask, fd, mask, status);
    }

    /** eloopStateDelete in epoll_loop.c: the bits just taken out are put back, and the call is an ADD. */
    method EpollStateDelete(fd: nat, mask: Mask)
      requires fd < idle.Length
      modifies this`kernel, this`asked
      ensures fd in old(kernel) && idle[fd].mask != EVT_DELETE ==> kernel == old(kernel)
      ensures Elsewhere(old(kernel), kernel, fd)
      ensures Watched(kernel, fd) in {Watched(old(kernel), fd), Watchable(idle[fd].mask), 0}
      ensures Watched(kernel, fd) == 0 ==> Watched(old(kernel), fd) == 0 || Watchable(idle[fd].mask) == 0
      ensures old(asked) <= asked && DeleteAsks(Epoll, idle[fd].mask, fd, mask, asked[|old(asked)|..])
    {
      hide Watchable, Without, With, DeleteAsks;
      ghost var before := asked;
      var newmask := Without(idle[fd].mask, mask);
      newmask := With(newmask, idle[fd].mask);
      PutBack(idle[fd].mask, mask);
      if newmask != EVT_DELETE {
        var _ := EpollCtl(CtlAdd, fd, Watchable(newmask));
      } else {
        var _ := EpollCtl(CtlDel, fd, Watchable(newmask));
      }
      DeleteAsked(before, asked, idle[fd].mask, fd, mask);
    }
  }

  lemma Asked(before: seq<Ask>, after: seq<Ask>, more: seq<Ask>)
    requires after == before + more
    ensures before <= after && after[|before|..] == more
  {
  }

  lemma AddAsked(before: seq<Ask>, after: seq<Ask>, registered: Mask, fd: nat, mask: Mask, status: int)
    requires after == before + [Ask(if registered == EVT_ADD then CtlAdd else CtlMod, fd,
                                    Watchable(With(mask, registered)), status == EVT_OK)]
    ensures before <= after && AddAsks(Epoll, registered, fd, mask, after[|before|..], status)
  {
  }

  lemma DeleteAsked(before: seq<Ask>, after: seq<Ask>, registered: Mask, fd: nat, mask: Mask)
    requires |after| == |before| + 1 && before <= after
    requires after[|before|] ==
             Ask(if registered == EVT_DELETE then CtlDel else CtlAdd, fd, Watchable(registered), after[|before|].granted)
    ensures DeleteAsks(Epoll, registered, fd, mask, after[|before|..])
  {
  }

  lemma TwoAsks(fd: nat, mask: Mask, read: seq<Ask>, write: seq<Ask>)
    requires |read| == (if mask & EVT_READ != 0 then 1 else 0) && |write| == (if mask & EVT_WRITE != 0 then 1 else 0)
    requires read != [] ==> read[0] == Ask(KqDelete, fd, EVT_READ, read[0].granted)
    requires write != [] ==> write[0] == Ask(KqDelete, fd, EVT_WRITE, write[0].granted)
    ensures DeleteAsks(Kqueue, EVT_ADD, fd, mask, read + write)
  {
  }

  lemma ElsewhereTwice(a: map<nat, Mask>, b: map<nat, Mask>, c: map<nat, Mask>, fd: nat)
    requires Elsewhere(a, b, fd) || a == b
    requires Elsewhere(b, c, fd) || b == c
    ensures Elsewhere(a, c, fd)
  {
  }

  lemma ElsewhereSame(kernel: map<nat, Mask>, fd: nat)
    ensures Elsewhere(kernel, kernel, fd)
  {
  }

  // ----- runs of additions and deletions -----

  /** What a run sees of the loop. */
  datatype LoopState = LoopState(masks: seq<Mask>, max: int, kernel: map<nat, Mask>)

  datatype Op = AddOp(fd: nat, mask: Mask, status: int) | DeleteOp(fd: nat, mask: Mask)

  /** One call on a descriptor in range, with any outcome the backend allows. */
  ghost predicate Step(backend: Backend, s: LoopState, op: Op, s': LoopState) {
    op.fd < |s.masks| && Elsewhere(s.kernel, s'.kernel, op.fd) &&
    match op
    case AddOp(fd, mask, status) =>
      status in {EVT_OK, EVT_ERR} && (Refused(backend, s.masks[fd], fd in s.kernel) ==> status == EVT_ERR) &&
      (backend == Epoll && status == EVT_ERR ==> s'.kernel == s.kernel) &&
      Added(backend, Watched(s.kernel, fd), Watched(s'.kernel, fd), s.masks[fd], mask, status) &&
      s'.masks == (if status == EVT_OK then s.masks[fd := With(s.masks[fd], mask)] else s.masks) &&
      s'.max == if status == EVT_OK && fd > s.max then fd else s.max
    case DeleteOp(fd, mask) =>
      s'.masks == s.masks[fd := Without(s.masks[fd], mask)] &&
      if s.masks[fd] == EVT_ADD then s' == s
      else
        s'.max == MaxAfterDrop(s'.masks, s.max, fd) &&
        Deleted(backend, Watched(s.kernel, fd), Watched(s'.kernel, fd), s.masks[fd], mask)
  }

  lemma AddIsStep(backend: Backend, s: LoopState, s': LoopState, fd: nat, mask: Mask, status: int)
    requires fd < |s.masks| && status in {EVT_OK, EVT_ERR}
    requires s'.masks == (if status == EVT_OK then s.masks[fd := With(s.masks[fd], mask)] else s.masks)
    requires s'.max == if status == EVT_OK && fd > s.max then fd else s.max
    requires Refused(backend, s.masks[fd], fd in s.kernel) ==> status == EVT_ERR
    requires backend == Epoll && status == EVT_ERR ==> s'.kernel == s.kernel
    ensures Elsewhere(s.kernel, s'.kernel, fd) &&
            Added(backend, Watched(s.kernel, fd), Watched(s'.kernel, fd), s.masks[fd], mask, status) ==>
              Step(backend, s, AddOp(fd, mask, status), s')
  {
  }

  lemma DeleteIsStep(backend: Backend, s: LoopState, s': LoopState, fd: nat, mask: Mask)
    requires fd < |s.masks| && s'.masks == s.masks[fd := Without(s.masks[fd], mask)]
    ensures Elsewhere(s.kernel, s'.kernel, fd) &&
            (if s.masks[fd] == EVT_ADD then s' == s
             else s'.max == MaxAfterDrop(s'.masks, s.max, fd) &&
                  Deleted(backend, Watched(s.kernel, fd), Watched(s'.kernel, fd), s.masks[fd], mask)) ==>
              Step(backend, s, DeleteOp(fd, mask), s')
  {
  }

  /** A kqueue addition that registered one filter and not the other. */
  predicate Partial(op: Op) {
    op.AddOp? && op.status == EVT_ERR && Watchable(op.mask) == EVT_READ | EVT_WRITE
  }

  /** What holds after every run of additions that register something, and deletions, with no closing in between. */
  ghost predicate LoopInvariant(backend: Backend, s: LoopState, partial: bool) {
    IsMax(s.masks, s.max) && Contained(s.masks, s.kernel) &&
    (backend == Kqueue && !partial ==> InStep(s.masks, s.kernel))
  }

  lemma StepKeeps(backend: Backend, s: LoopState, op: Op, s': LoopState, partial: bool)
    requires Step(backend, s, op, s') && LoopInvariant(backend, s, partial)
    requires op.AddOp? ==> op.mask != 0
    ensures LoopInvariant(backend, s', partial || Partial(op))
  {
    hide IsMax, InStep, Contained, Elsewhere, Watchable, Watched, Added, Deleted;
    match op {
      case AddOp(fd, mask, status) =>
        AddKeepsMaxIff(s.masks, s.max, fd, mask);
        AddKeeps(backend, s.masks, s.kernel, s'.kernel, fd, mask, status);
        assert s.masks[fd := s.masks[fd]] == s.masks;
      case DeleteOp(fd, mask) =>
        if s.masks[fd] != EVT_ADD {
          DeleteKeeps(backend, s.masks, s.kernel, s'.kernel, fd, mask);
          DropKeepsMax(s.masks, s.max, fd, mask);
        }
    }
  }

  /** After any run from a fresh loop, whatever fails along the way, the invariant holds. */
  lemma {:induction false} RunKeeps(backend: Backend, states: seq<LoopState>, ops: seq<Op>, count: nat)
    requires |states| == |ops| + 1
    requires states[0] == LoopState(seq(count, _ => EVT_ADD), -1, map[])
    requires forall i :: 0 <= i < |ops| ==> Step(backend, states[i], ops[i], states[i + 1])
    requires forall i :: 0 <= i < |ops| && ops[i].AddOp? ==> ops[i].mask != 0
    ensures LoopInvariant(backend, states[|ops|], exists i :: 0 <= i < |ops| && Partial(ops[i]))
    decreases |ops|
  {
    hide Step, Partial;
    if ops == [] {
      NothingOutside(0);
    } else {
      var n := |ops| - 1;
      RunKeeps(backend, states[..n + 1], ops[..n], count);
      var before := exists i :: 0 <= i < n && Partial(ops[..n][i]);
      StepKeeps(backend, states[n], ops[n], states[n + 1], before);
      assert before || Partial(ops[n]) <==> exists i :: 0 <= i < |ops| && Partial(ops[i]) by {
        if i :| 0 <= i < |ops| && Partial(ops[i]) {
          assert i < n ==> Partial(ops[..n][i]);
        }
        if i :| 0 <= i < n && Partial(ops[..n][i]) {
          assert Partial(ops[i]);
        }
      }
    }
  }

  /** Registered with the loop, and not with the kernel: what closing a descriptor does before all its bits are deleted. */
  predicate Stranded(s: LoopState, fd: nat) {
    fd < |s.masks| && s.masks[fd] != EVT_ADD && fd !in s.kernel
  }

  /** Under epoll such a descriptor is lost: until something is deleted on it, every attempt to register it is refused. */
  lemma {:induction false} StrandedStays(states: seq<LoopState>, ops: seq<Op>, fd: nat)
    requires |states| == |ops| + 1 && Stranded(states[0], fd)
    requires forall i :: 0 <= i < |ops| ==> Step(Epoll, states[i], ops[i], states[i + 1])
    requires forall i :: 0 <= i < |ops| ==> ops[i].AddOp? || ops[i].fd != fd
    ensures Stranded(states[|ops|], fd)
    ensures forall i :: 0 <= i < |ops| && ops[i].fd == fd ==> ops[i].AddOp? && ops[i].status == EVT_ERR
    decreases |ops|
  {
    hide Step, Stranded;
    if ops != [] {
      var n := |ops| - 1;
      StrandedStays(states[..n + 1], ops[..n], fd);
      StrandedStep(states[n], ops[n], states[n + 1], fd);
    }
  }

  lemma StrandedStep(s: LoopState, op: Op, s': LoopState, fd: nat)
    requires Step(Epoll, s, op, s') && Stranded(s, fd) && (op.AddOp? || op.fd != fd)
    ensures Stranded(s', fd) && (op.fd == fd ==> op.status == EVT_ERR)
  {
    hide Added, Deleted, Watched, MaxAfterDrop, Without;
    if op.fd != fd {
      assert fd in s'.kernel <==> fd in s'.kernel - {op.fd};
      assert fd in s.kernel <==> fd in s.kernel - {op.fd};
    }
  }

  /** The invariant without its predicates: what `max` and the kernel are after a run. */
  lemma InvariantMeans(backend: Backend, s: LoopState, partial: bool, fd: nat)
    requires LoopInvariant(backend, s, partial) && fd < |s.masks|
    ensures s.masks[fd] != 0 ==> fd <= s.max
    ensures -1 <= s.max < |s.masks| && (s.max >= 0 ==> s.masks[s.max] != 0)
    ensures s.masks[fd] & EVT_READ != 0 ==> fd in s.kernel && s.kernel[fd] & EVT_READ != 0
    ensures s.masks[fd] & EVT_WRITE != 0 ==> fd in s.kernel && s.kernel[fd] & EVT_WRITE != 0
    ensures backend == Kqueue && !partial && fd in s.kernel && s.kernel[fd] & EVT_READ != 0 ==> s.masks[fd] & EVT_READ != 0
    ensures backend == Kqueue && !partial && fd in s.kernel && s.kernel[fd] & EVT_WRITE != 0 ==> s.masks[fd] & EVT_WRITE != 0
  {
    hide InStep, Contained;
    NoBits();
    ContainedMeans(s.masks, s.kernel, fd);
    if backend == Kqueue && !partial {
      InStepMeans(s.masks, s.kernel, fd);
    }
  }

  lemma NoBits()
    ensures 0 as Mask & EVT_READ == 0 && 0 as Mask & EVT_WRITE == 0
  {
  }

  /** A statement about every descriptor survives a change to one if it holds there afterwards. */
  lemma OneChanged(masks: seq<Mask>, kernel: map<nat, Mask>, kernel': map<nat, Mask>, fd: nat, m: Mask)
    requires fd < |masks| && Elsewhere(kernel, kernel', fd)
    ensures InStep(masks, kernel) && Watched(kernel', fd) == Watchable(m) ==> InStep(masks[fd := m], kernel')
    ensures Contained(masks, kernel) && Within(Watchable(m), Watched(kernel', fd)) ==> Contained(masks[fd := m], kernel')
  {
    hide Within, Watchable;
    forall x: nat | x != fd ensures Watched(kernel', x) == Watched(kernel, x) {
      assert x in kernel' <==> x in kernel' - {fd};
      assert x in kernel <==> x in kernel - {fd};
      if x in kernel {
        assert kernel'[x] == (kernel' - {fd})[x] == (kernel - {fd})[x] == kernel[x];
      }
    }
  }

  /**
   An addition keeps the kernel at or above the masks; it keeps the two equal unless kqueue took the
   read filter and then refused the write filter.
   */
  lemma AddKeeps(backend: Backend, masks: seq<Mask>, kernel: map<nat, Mask>, kernel': map<nat, Mask>, fd: nat, mask: Mask,
                 status: int)
    requires fd < |masks| && Elsewhere(kernel, kernel', fd) && status in {EVT_OK, EVT_ERR}
    requires Added(backend, Watched(kernel, fd), Watched(kernel', fd), masks[fd], mask, status)
    ensures var m := if status == EVT_OK then With(masks[fd], mask) else masks[fd];
            (Contained(masks, kernel) ==> Contained(masks[fd := m], kernel')) &&
            (InStep(masks, kernel) && (backend == Epoll || status == EVT_OK || Watchable(mask) != EVT_READ | EVT_WRITE) ==>
               InStep(masks[fd := m], kernel'))
  {
    hide InStep, Contained, Elsewhere, Watchable, Watched, Added, Within;
    var m := if status == EVT_OK then With(masks[fd], mask) else masks[fd];
    OneChanged(masks, kernel, kernel', fd, m);
    AddedBits(backend, Watched(kernel, fd), Watched(kernel', fd), masks[fd], mask, status);
    AtDescriptor(masks, kernel, fd);
  }

  lemma AtDescriptor(masks: seq<Mask>, kernel: map<nat, Mask>, fd: nat)
    requires fd < |masks|
    ensures InStep(masks, kernel) ==> Watched(kernel, fd) == Watchable(masks[fd])
    ensures Contained(masks, kernel) ==> Within(Watchable(masks[fd]), Watched(kernel, fd))
  {
  }

  lemma AddedBits(backend: Backend, before: Mask, after: Mask, registered: Mask, mask: Mask, status: int)
    requires Added(backend, before, after, registered, mask, status) && status in {EVT_OK, EVT_ERR}
    ensures var m := if status == EVT_OK then With(registered, mask) else registered;
            (Within(Watchable(registered), before) ==> Within(Watchable(m), after)) &&
            (before == Watchable(registered) && (backend == Epoll || status == EVT_OK || Watchable(mask) != EVT_READ | EVT_WRITE) ==>
               after == Watchable(m))
  {
  }

  /** A deletion keeps the kernel at or above the masks, and under kqueue keeps the two equal. */
  lemma DeleteKeeps(backend: Backend, masks: seq<Mask>, kernel: map<nat, Mask>, kernel': map<nat, Mask>, fd: nat,
                    mask: Mask)
    requires fd < |masks| && Elsewhere(kernel, kernel', fd)
    requires Deleted(backend, Watched(kernel, fd), Watched(kernel', fd), masks[fd], mask)
    ensures Contained(masks, kernel) ==> Contained(masks[fd := Without(masks[fd], mask)], kernel')
    ensures backend == Kqueue && InStep(masks, kernel) ==> InStep(masks[fd := Without(masks[fd], mask)], kernel')
  {
    hide InStep, Contained, Elsewhere, Watchable, Watched, Deleted, Within;
    OneChanged(masks, kernel, kernel', fd, Without(masks[fd], mask));
    DeletedBits(backend, Watched(kernel, fd), Watched(kernel', fd), masks[fd], mask);
    AtDescriptor(masks, kernel, fd);
  }

  lemma DeletedBits(backend: Backend, before: Mask, after: Mask, registered: Mask, mask: Mask)
    requires Deleted(backend, before, after, registered, mask)
    ensures Within(Watchable(registered), before) ==> Within(Watchable(registered & !mask), after)
    ensures backend == Kqueue && before == Watchable(registered) ==> after == Watchable(registered & !mask)
  {
  }

  /**
   Under epoll a deletion leaves what the kernel watches as it was, so masks and kernel, equal before
   it, are equal after it exactly when it took no watched bit out.
   */
  lemma EpollDeleteKeepsStepIff(s: LoopState, fd: nat, mask: Mask, s': LoopState)
    requires Step(Epoll, s, DeleteOp(fd, mask), s') && InStep(s.masks, s.kernel)
    ensures InStep(s'.masks, s'.kernel) <==> Watchable(s.masks[fd]) & mask == 0
  {
    hide InStep, Elsewhere, Watched, Watchable, Without, MaxAfterDrop;
    AtDescriptor(s.masks, s.kernel, fd);
    OneChanged(s.masks, s.kernel, s'.kernel, fd, Without(s.masks[fd], mask));
    AtDescriptor(s'.masks, s'.kernel, fd);
    DroppedBits(s.masks[fd], mask);
    assert s.masks[fd := s.masks[fd]] == s.masks;
  }

  lemma DroppedBits(registered: Mask, mask: Mask)
    ensures Watchable(Without(registered, mask)) == Watchable(registered) <==> Watchable(registered) & mask == 0
    ensures Without(0, mask) == 0
  {
  }

  /** Adding the bits one at a time. */
  lemma TwoBits(w: Mask, mask: Mask)
    ensures mask & EVT_READ != 0 && mask & EVT_WRITE != 0 ==>
              Watchable(mask) == EVT_READ | EVT_WRITE && With(w, Watchable(mask)) == With(With(w, EVT_READ), EVT_WRITE)
    ensures mask & EVT_READ != 0 && mask & EVT_WRITE == 0 ==> With(w, Watchable(mask)) == With(w, EVT_READ)
    ensures mask & EVT_READ == 0 && mask & EVT_WRITE != 0 ==> With(w, Watchable(mask)) == With(w, EVT_WRITE)
    ensures mask & EVT_READ == 0 && mask & EVT_WRITE == 0 ==> With(w, Watchable(mask)) == w
  {
  }

  lemma TwoDrops(w: Mask, mask: Mask)
    ensures mask & EVT_READ != 0 && mask & EVT_WRITE != 0 ==>
              Without(w, Watchable(mask)) == Without(Without(w, EVT_READ), EVT_WRITE)
    ensures mask & EVT_READ != 0 && mask & EVT_WRITE == 0 ==> Without(w, Watchable(mask)) == Without(w, EVT_READ)
    ensures mask & EVT_READ == 0 && mask & EVT_WRITE != 0 ==> Without(w, Watchable(mask)) == Without(w, EVT_WRITE)
    ensures mask & EVT_READ == 0 && mask & EVT_WRITE == 0 ==> Without(w, Watchable(mask)) == w
  {
  }

  lemma PutBack(idleMask: Mask, mask: Mask)
    ensures With(Without(idleMask, mask), idleMask) == idleMask
    ensures Watchable(EVT_DELETE) == 0
  {
  }
}
