/**
 Client accounting in the server (server.c 164-221 and 300-336) on top of the event loop's dispatch
 (eloop.c 125-159). Callbacks are named, so that dispatch can call them; the sockets are represented by
 the set of open descriptors, and accept by the descriptor it returns.
 */
module Server {
  import opened EventLoop
  import opened Sequences

  datatype Callback = NoCallback | AcceptClient | SendReply

  /** What happens to clients, in order. */
  datatype Event = Accepted(fd: nat) | Answered(fd: nat)

  // ----- the log -----

  /** fd's last event is that it was accepted. */
  predicate Live(log: seq<Event>, fd: nat) {
    log != [] &&
    if log[|log| - 1].fd == fd then log[|log| - 1].Accepted? else Live(log[..|log| - 1], fd)
  }

  /** Only live clients are answered, and only descriptors that are not live are accepted. */
  ghost predicate Orderly(log: seq<Event>) {
    forall i :: 0 <= i < |log| ==> (log[i].Answered? <==> Live(log[..i], log[i].fd))
  }

  lemma LiveNext(log: seq<Event>, e: Event, fd: nat)
    ensures Live(log + [e], fd) == if e.fd == fd then e.Accepted? else Live(log, fd)
  {
  }

  lemma OrderlyNext(log: seq<Event>, e: Event)
    requires Orderly(log) && (e.Answered? <==> Live(log, e.fd))
    ensures Orderly(log + [e])
  {
    var l := log + [e];
    forall i | 0 <= i < |l| ensures l[i].Answered? <==> Live(l[..i], l[i].fd) {
      if i < |log| {
        assert l[..i] == log[..i];
      } else {
        assert l[..i] == log;
      }
    }
  }

  /** A descriptor without events between two points is as live at the second as at the first. */
  lemma {:induction false} LiveUnchanged(log: seq<Event>, i: nat, j: nat, fd: nat)
    requires i <= j <= |log| && forall k :: i <= k < j ==> log[k].fd != fd
    ensures Live(log[..j], fd) == Live(log[..i], fd)
    decreases j
  {
    if i < j {
      assert log[..j][..j - 1] == log[..j - 1];
      LiveUnchanged(log, i, j - 1, fd);
    }
  }

  /** Between two answers on one descriptor a new client was accepted on it: no client is answered twice. */
  lemma AnsweredOnce(log: seq<Event>, i: nat, j: nat)
    requires Orderly(log) && i < j < |log| && log[i].Answered? && log[j].Answered? && log[i].fd == log[j].fd
    ensures exists k :: i < k < j && log[k] == Accepted(log[i].fd)
  {
    var fd := log[i].fd;
    var k := LastEvent(log, i, j, fd);
    LiveUnchanged(log, k + 1, j, fd);
    LiveNext(log[..k], log[k], fd);
    assert log[..k + 1] == log[..k] + [log[k]];
  }

  /** The last event of a descriptor before j, given one at i. */
  lemma LastEvent(log: seq<Event>, i: nat, j: nat, fd: nat) returns (k: nat)
    requires i < j <= |log| && log[i].fd == fd
    ensures i <= k < j && log[k].fd == fd && forall x :: k < x < j ==> log[x].fd != fd
  {
    k := j - 1;
    while log[k].fd != fd
      invariant i <= k < j && forall x :: k < x < j ==> log[x].fd != fd
      decreases k
    {
      k := k - 1;
    }
  }

  // ----- the clients -----

  /** The registered descriptors other than the listener's. */
  function Clients(masks: seq<Mask>, sfd: nat): nat {
    if masks == [] then 0
    else Clients(masks[..|masks| - 1], sfd) + if |masks| - 1 != sfd && masks[|masks| - 1] != 0 then 1 else 0
  }

  lemma {:induction false} ClientsUpdate(masks: seq<Mask>, sfd: nat, fd: nat, m: Mask)
    requires fd < |masks| && fd != sfd
    ensures Clients(masks[fd := m], sfd) ==
            Clients(masks, sfd) - (if masks[fd] != 0 then 1 else 0) + (if m != 0 then 1 else 0)
  {
    var n := |masks| - 1;
    if fd == n {
      assert masks[fd := m][..n] == masks[..n];
    } else {
      assert masks[fd := m][..n] == masks[..n][fd := m];
      ClientsUpdate(masks[..n], sfd, fd, m);
    }
  }

  lemma {:induction false} NoClients(masks: seq<Mask>, sfd: nat)
    requires forall i :: 0 <= i < |masks| && i != sfd ==> masks[i] == 0
    ensures Clients(masks, sfd) == 0
  {
    if masks != [] {
      NoClients(masks[..|masks| - 1], sfd);
    }
  }

  const EVT_BOTH: Mask := EVT_READ | EVT_WRITE

  /** What a client may be registered for: reading, or both bits if its listener fired for both. */
  predicate ForClient(mask: Mask) {
    mask == EVT_READ || mask == EVT_BOTH
  }

  /** What every reachable server state satisfies. */
  datatype Snapshot = Snapshot(idle: seq<Evt<Callback>>, kernel: map<nat, Mask>, open: set<nat>,
                               sfd: nat, clientcount: int, log: seq<Event>)
  {
    ghost predicate Consistent() {
      sfd < |idle| && idle[sfd].mask == EVT_READ && idle[sfd].read == AcceptClient && sfd in open &&
      (forall fd :: 0 <= fd < |idle| && fd != sfd ==>
         idle[fd].mask == EVT_ADD || (ForClient(idle[fd].mask) && idle[fd].read == SendReply)) &&
      (forall fd :: 0 <= fd < |idle| && idle[fd].mask != EVT_ADD ==> fd in open) &&
      (forall fd :: fd in kernel ==> fd in open) &&
      InStep(Masks(idle), kernel) &&
      clientcount == Clients(Masks(idle), sfd) &&
      Orderly(log) && forall fd: nat :: Live(log, fd) <==> fd < |idle| && fd != sfd && idle[fd].mask != EVT_ADD
    }
  }

  /** serverAccept, when the addition succeeds: one more client, on a descriptor that was not open. */
  function AfterAccept(s: Snapshot, fd: nat, mask: Mask, kernel: map<nat, Mask>): Snapshot
    requires fd < |s.idle|
  {
    Snapshot(s.idle[fd := Updated(s.idle[fd], mask, SendReply)], kernel, s.open + {fd}, s.sfd, s.clientcount + 1,
             s.log + [Accepted(fd)])
  }

  /** serverSendClientReply: the client's bits are deleted and its descriptor is closed, which ends what the kernel watches. */
  function AfterReply(s: Snapshot, fd: nat, mask: Mask, kernel: map<nat, Mask>): Snapshot
    requires fd < |s.idle|
  {
    Snapshot(s.idle[fd := s.idle[fd].(mask := Without(s.idle[fd].mask, mask))], kernel - {fd}, s.open - {fd}, s.sfd,
             s.clientcount - 1, s.log + [Answered(fd)])
  }

  lemma ClientBits(mask: Mask)
    ensures Watchable(0) == 0 && With(0, mask) == mask
    ensures ForClient(mask) ==> mask != 0 && mask & EVT_READ != 0 && Watchable(mask) == mask
  {
  }

  lemma AcceptKeeps(backend: Backend, s: Snapshot, fd: nat, mask: Mask, max: int, s': LoopState)
    requires s.Consistent() && fd < |s.idle| && fd !in s.open && ForClient(mask)
    requires Step(backend, LoopState(Masks(s.idle), max, s.kernel), AddOp(fd, mask, EVT_OK), s')
    ensures AfterAccept(s, fd, mask, s'.kernel).Consistent()
  {
    hide InStep, Step, Orderly, Live, Clients, Watchable, ForClient;
    ClientBits(mask);
    var r := AfterAccept(s, fd, mask, s'.kernel);
    assert s.idle[fd].mask == 0;
    MasksUpdate(s.idle, fd, r.idle[fd]);
    AcceptInStep(backend, Masks(s.idle), s.kernel, fd, mask, max, s');
    ClientsUpdate(Masks(s.idle), s.sfd, fd, mask);
    OrderlyNext(s.log, Accepted(fd));
    forall x: nat ensures Live(r.log, x) <==> x < |r.idle| && x != r.sfd && r.idle[x].mask != EVT_ADD {
      LiveNext(s.log, Accepted(fd), x);
    }
  }

  /** The loop's part of an accepted client. */
  lemma AcceptInStep(backend: Backend, masks: seq<Mask>, kernel: map<nat, Mask>, fd: nat, mask: Mask,
                     max: int, s': LoopState)
    requires fd < |masks| && masks[fd] == 0 && InStep(masks, kernel)
    requires Step(backend, LoopState(masks, max, kernel), AddOp(fd, mask, EVT_OK), s')
    ensures InStep(masks[fd := mask], s'.kernel)
    ensures forall x :: x in s'.kernel ==> x in kernel || x == fd
  {
    ClientBits(mask);
    AddKeeps(backend, masks, kernel, s'.kernel, fd, mask, EVT_OK);
    forall x | x in s'.kernel && x != fd ensures x in kernel {
      assert x in s'.kernel - {fd};
    }
  }

  lemma ReplyKeeps(s: Snapshot, fd: nat, mask: Mask, kernel: map<nat, Mask>)
    requires s.Consistent() && fd < |s.idle| && fd != s.sfd && s.idle[fd].mask != EVT_ADD
    requires Without(s.idle[fd].mask, mask) == EVT_ADD && Elsewhere(s.kernel, kernel, fd)
    ensures AfterReply(s, fd, mask, kernel).Consistent()
  {
    hide InStep, Orderly, Live, Clients, Watchable, ForClient;
    var r := AfterReply(s, fd, mask, kernel);
    MasksUpdate(s.idle, fd, r.idle[fd]);
    ReplyInStep(Masks(s.idle), s.kernel, kernel, fd);
    ClientsUpdate(Masks(s.idle), s.sfd, fd, 0);
    OrderlyNext(s.log, Answered(fd));
    forall x: nat ensures Live(r.log, x) <==> x < |r.idle| && x != r.sfd && r.idle[x].mask != EVT_ADD {
      LiveNext(s.log, Answered(fd), x);
    }
  }

  /** If a bit is left, the client is still registered and no longer counted. */
  lemma ReplyBreaks(s: Snapshot, fd: nat, mask: Mask, kernel: map<nat, Mask>)
    requires s.Consistent() && fd < |s.idle| && fd != s.sfd && s.idle[fd].mask != EVT_ADD
    requires Without(s.idle[fd].mask, mask) != EVT_ADD
    ensures !AfterReply(s, fd, mask, kernel).Consistent()
  {
    hide InStep, Orderly, Live, Clients, Watchable, ForClient;
    var r := AfterReply(s, fd, mask, kernel);
    MasksUpdate(s.idle, fd, r.idle[fd]);
    ClientsUpdate(Masks(s.idle), s.sfd, fd, r.idle[fd].mask);
  }

  /** Deleting and then closing puts masks and kernel back in step under either backend. */
  lemma ReplyInStep(masks: seq<Mask>, kernel: map<nat, Mask>, kernel': map<nat, Mask>, fd: nat)
    requires fd < |masks| && InStep(masks, kernel) && Elsewhere(kernel, kernel', fd)
    ensures InStep(masks[fd := 0], kernel' - {fd})
    ensures forall x :: x in kernel' - {fd} ==> x in kernel && x != fd
  {
  }

  /** The bits for which a kernel either registers a descriptor or leaves it alone. */
  predicate AllOrNothing(backend: Backend, mask: Mask) {
    mask == EVT_READ || (backend == Epoll && mask == EVT_BOTH)
  }

  /** An accepted socket the loop refused: it stays open and is nobody's client. */
  lemma RefusalKeeps(backend: Backend, s: Snapshot, fd: nat, mask: Mask, max: int, s': LoopState)
    requires s.Consistent() && fd !in s.open && AllOrNothing(backend, mask)
    requires fd >= |s.idle| ==> s'.kernel == s.kernel
    requires fd < |s.idle| ==> Step(backend, LoopState(Masks(s.idle), max, s.kernel), AddOp(fd, mask, EVT_ERR), s')
    ensures s.(open := s.open + {fd}, kernel := s'.kernel).Consistent()
  {
    hide InStep, Orderly, Live, Clients, ForClient, AllOrNothing;
    if fd < |s.idle| {
      RefusalInStep(backend, Masks(s.idle), s.kernel, fd, mask, max, s');
    }
  }

  lemma RefusalInStep(backend: Backend, masks: seq<Mask>, kernel: map<nat, Mask>, fd: nat, mask: Mask,
                      max: int, s': LoopState)
    requires fd < |masks| && InStep(masks, kernel) && AllOrNothing(backend, mask)
    requires Step(backend, LoopState(masks, max, kernel), AddOp(fd, mask, EVT_ERR), s')
    ensures InStep(masks, s'.kernel)
    ensures forall x :: x in s'.kernel ==> x in kernel || x == fd
  {
    assert Watchable(EVT_READ) != EVT_READ | EVT_WRITE;
    AddKeeps(backend, masks, kernel, s'.kernel, fd, mask, EVT_ERR);
    assert masks[fd := masks[fd]] == masks;
    forall x | x in s'.kernel && x != fd ensures x in kernel {
      assert x in s'.kernel - {fd};
    }
  }

  // ----- one pass of the dispatch -----

  predicate Reads(mask: Mask) {
    mask & EVT_READ != 0
  }

  /** After n fired events: every client among them has been answered, and nobody who did not fire. */
  ghost predicate Dispatched(active: seq<Fired>, n: nat, sfd: nat, was: seq<Event>, log: seq<Event>) {
    n <= |active| && was <= log &&
    (forall i :: 0 <= i < n && active[i].fd != sfd && Reads(active[i].mask) && Live(was, active[i].fd) ==>
       Answered(active[i].fd) in log[|was|..]) &&
    (forall k :: |was| <= k < |log| && log[k].Answered? ==>
       exists i :: 0 <= i < n && active[i].fd == log[k].fd && Reads(active[i].mask))
  }

  /** Who is no longer live has been answered. */
  lemma {:induction false} EndedWasAnswered(log: seq<Event>, i: nat, fd: nat)
    requires i <= |log| && Live(log[..i], fd) && !Live(log, fd)
    ensures Answered(fd) in log[i..]
  {
    assert log[..|log|] == log;
    if i < |log| {
      var n := |log| - 1;
      assert log[i..][n - i] == log[n];
      if log[n].fd != fd {
        assert log[..n][..i] == log[..i];
        EndedWasAnswered(log[..n], i, fd);
        assert log[..n][i..] == log[i..][..n - i];
      }
    }
  }

  lemma DispatchedStart(active: seq<Fired>, sfd: nat, log: seq<Event>)
    ensures Dispatched(active, 0, sfd, log, log)
  {
  }

  lemma DispatchedNothing(active: seq<Fired>, n: nat, sfd: nat, was: seq<Event>, log: seq<Event>)
    requires Dispatched(active, n, sfd, was, log) && n < |active|
    requires active[n].fd == sfd || !Reads(active[n].mask) || !Live(log, active[n].fd)
    ensures Dispatched(active, n + 1, sfd, was, log)
  {
    hide Live, Reads;
    var fd := active[n].fd;
    if fd != sfd && Reads(active[n].mask) && Live(was, fd) {
      assert log[..|was|] == was;
      EndedWasAnswered(log, |was|, fd);
    }
  }

  lemma DispatchedAccept(active: seq<Fired>, n: nat, sfd: nat, was: seq<Event>, log: seq<Event>)
    requires Dispatched(active, n, sfd, was, log) && n < |active| && active[n].fd == sfd
    ensures Dispatched(active, n + 1, sfd, was, log)
    ensures forall l: seq<Event> :: |l| == |log| + 1 && l[..|log|] == log && l[|log|].Accepted? ==>
                                      Dispatched(active, n + 1, sfd, was, l)
  {
  }

  lemma DispatchedReply(active: seq<Fired>, n: nat, sfd: nat, was: seq<Event>, log: seq<Event>)
    requires Dispatched(active, n, sfd, was, log) && n < |active| && Reads(active[n].mask)
    ensures Dispatched(active, n + 1, sfd, was, log + [Answered(active[n].fd)])
  {
    hide Live, Reads;
    var l := log + [Answered(active[n].fd)];
    Longer(was, log, l);
    assert l[|was|..][|log| - |was|] == Answered(active[n].fd);
  }

  lemma Longer(was: seq<Event>, log: seq<Event>, l: seq<Event>)
    requires was <= log && |l| == |log| + 1 && l[..|log|] == log
    ensures was <= l && forall e :: e in log[|was|..] ==> e in l[|was|..]
    ensures forall k :: |was| <= k < |log| ==> l[k] == log[k]
  {
  }

  /** What is registered says who fires: the listener alone accepts, live clients alone are answered. */
  lemma Firing(s: Snapshot, fd: nat, mask: Mask)
    requires s.Consistent() && fd < |s.idle|
    ensures if s.idle[fd].mask & mask & EVT_READ != 0 then Reads(mask) && (s.idle[fd].read == AcceptClient <==> fd == s.sfd)
            else fd == s.sfd || !Reads(mask) || !Live(s.log, fd)
  {
  }

  /** In a consistent state: the listener is registered for reading alone. */
  lemma EventBits(s: Snapshot, fd: nat, mask: Mask)
    requires s.Consistent() && fd < |s.idle|
    ensures s.idle[fd].mask & mask & EVT_READ != 0 <==> s.idle[fd].mask & EVT_READ != 0 && mask & EVT_READ != 0
    ensures fd == s.sfd ==> s.idle[fd].mask & EVT_READ != 0
  {
    hide InStep, Orderly, Live, Clients, Watchable;
    DueMeans(s.idle[fd].mask, mask);
    ListenerBits(mask);
  }

  /** No client is registered for writing. */
  ghost predicate Narrow(idle: seq<Evt<Callback>>) {
    forall fd :: 0 <= fd < |idle| ==> idle[fd].mask & EVT_WRITE == 0
  }

  /** The listener fired for reading only, as it always does under kqueue. */
  ghost predicate ListenerReads(active: seq<Fired>, sfd: nat) {
    forall i :: 0 <= i < |active| && active[i].fd == sfd ==> active[i].mask == EVT_READ
  }

  /** Nothing registered has fired, or all of it. */
  predicate FullyFired(registered: Mask, fired: Mask) {
    registered & fired == 0 || Without(registered, fired) == EVT_ADD
  }

  /** The client of event i is the one registered now: its descriptor will not change hands before its turn. */
  ghost predicate SameClient(active: seq<Fired>, k: nat, i: nat, idle: seq<Evt<Callback>>)
    requires i < |active| && active[i].fd < |idle|
  {
    idle[active[i].fd].mask != EVT_ADD && forall j :: k <= j < i ==> active[j].fd != active[i].fd
  }

  /**
   From event k on, every client that fires has fired for all that it is registered for when its turn
   comes. Only a client that may be accepted before then depends on what the listener fired for.
   */
  ghost predicate Covering(active: seq<Fired>, k: nat, sfd: nat, idle: seq<Evt<Callback>>) {
    (forall i :: 0 <= i < |active| ==> active[i].fd < |idle|) &&
    forall i :: k <= i < |active| && active[i].fd != sfd ==>
      FullyFired(idle[active[i].fd].mask, active[i].mask) &&
      (SameClient(active, k, i, idle) || ListenerReads(active, sfd) || Within(EVT_BOTH, active[i].mask))
  }

  /** While the listener fires for reading only, as it does under kqueue, there is nothing to ask of the clients. */
  lemma ReadersCover(s: Snapshot, active: seq<Fired>)
    requires s.Consistent() && Narrow(s.idle) && ListenerReads(active, s.sfd)
    requires forall i :: 0 <= i < |active| ==> active[i].fd < |s.idle|
    ensures Covering(active, 0, s.sfd, s.idle)
  {
    hide InStep, Orderly, Live, Clients, Watchable, FullyFired;
    forall i | 0 <= i < |active| && active[i].fd != s.sfd ensures FullyFired(s.idle[active[i].fd].mask, active[i].mask) {
      ReaderFires(s.idle[active[i].fd].mask, active[i].mask);
    }
  }

  lemma ReaderFires(registered: Mask, fired: Mask)
    ensures registered == EVT_ADD || (ForClient(registered) && registered & EVT_WRITE == 0) ==> FullyFired(registered, fired)
  {
  }

  lemma FiresFully(mask: Mask, fired: Mask)
    ensures FullyFired(EVT_ADD, fired) && FullyFired(EVT_READ, fired)
    ensures ForClient(mask) && Within(EVT_BOTH, fired) ==> FullyFired(mask, fired)
  {
  }

  lemma CoveringNext(active: seq<Fired>, k: nat, sfd: nat, idle: seq<Evt<Callback>>)
    requires Covering(active, k, sfd, idle)
    ensures Covering(active, k + 1, sfd, idle)
  {
    hide FullyFired, Within;
  }

  /** The listener's event may have registered a client for what it fired for. */
  lemma CoveringAccepted(active: seq<Fired>, k: nat, sfd: nat, idle: seq<Evt<Callback>>, fd: nat, ev: Evt<Callback>)
    requires Covering(active, k, sfd, idle) && k < |active| && active[k].fd == sfd && fd < |idle| && fd != sfd
    requires idle[fd].mask == EVT_ADD && ev.mask == active[k].mask && ForClient(ev.mask)
    ensures Covering(active, k + 1, sfd, idle[fd := ev])
  {
    hide FullyFired, Within, ForClient;
    forall i | k < i < |active| && active[i].fd == fd ensures FullyFired(ev.mask, active[i].mask) {
      FiresFully(ev.mask, active[i].mask);
      assert !SameClient(active, k, i, idle);
    }
  }

  /** A reply leaves its client nothing. */
  lemma CoveringAnswered(active: seq<Fired>, k: nat, sfd: nat, idle: seq<Evt<Callback>>, ev: Evt<Callback>)
    requires Covering(active, k, sfd, idle) && k < |active| && active[k].fd != sfd && ev.mask == EVT_ADD
    ensures Covering(active, k + 1, sfd, idle[active[k].fd := ev])
  {
    hide FullyFired, Within;
    forall i | k < i < |active| && active[i].fd == active[k].fd ensures FullyFired(ev.mask, active[i].mask) {
      FiresFully(ev.mask, active[i].mask);
      assert !SameClient(active, k, i, idle);
    }
  }

  /** Then a due client is due for reading, and a reply leaves it no bit. */
  lemma CoveredClient(s: Snapshot, active: seq<Fired>, i: nat)
    requires s.Consistent() && Covering(active, i, s.sfd, s.idle) && i < |active| && active[i].fd != s.sfd
    ensures var fd, mask := active[i].fd, active[i].mask;
            (s.idle[fd].mask & mask & EVT_READ != 0 ==> Without(s.idle[fd].mask, mask) == EVT_ADD) &&
            (s.idle[fd].mask & mask & EVT_READ == 0 ==> s.idle[fd].mask & mask & EVT_WRITE == 0)
  {
    hide InStep, Orderly, Live, Clients, Watchable, FullyFired, Within;
    CoveredBits(s.idle[active[i].fd].mask, active[i].mask);
  }

  lemma CoveredBits(registered: Mask, mask: Mask)
    requires registered in {EVT_ADD, EVT_READ, EVT_BOTH} && FullyFired(registered, mask)
    ensures registered & mask & EVT_READ != 0 ==> Without(registered, mask) == EVT_ADD
    ensures registered & mask & EVT_READ == 0 ==> registered & mask & EVT_WRITE == 0
  {
  }

  /** What is due for a descriptor before the read half of its event, and what cannot be due after it. */
  lemma AfterFiring(s: Snapshot, active: seq<Fired>, i: nat)
    requires s.Consistent() && Covering(active, i, s.sfd, s.idle) && i < |active|
    ensures active[i].fd < |s.idle| &&
            var fd, mask := active[i].fd, active[i].mask;
            EVT_ADD & mask & EVT_WRITE == 0 && (fd == s.sfd ==> s.idle[fd].mask & mask & EVT_WRITE == 0) &&
            (s.idle[fd].mask & mask & EVT_READ != 0 ==> s.idle[fd].mask != EVT_ADD) &&
            (fd != s.sfd && s.idle[fd].mask & mask & EVT_READ != 0 ==> Without(s.idle[fd].mask, mask) == EVT_ADD) &&
            (fd != s.sfd && s.idle[fd].mask & mask & EVT_READ == 0 ==> s.idle[fd].mask & mask & EVT_WRITE == 0)
  {
    hide InStep, Orderly, Live, Clients, Watchable, FullyFired, Within;
    if active[i].fd != s.sfd {
      CoveredClient(s, active, i);
    }
    ListenerBits(active[i].mask);
  }

  lemma ListenerBits(mask: Mask)
    ensures EVT_READ & mask & EVT_WRITE == 0 && 0 & mask & EVT_WRITE == 0 && 0 & mask & EVT_READ == 0
  {
  }

  /** Accepting for reading, and answering, leave no client registered for writing. */
  lemma NarrowAdded(s: Snapshot, fd: nat, mask: Mask)
    requires s.Consistent() && fd < |s.idle| && fd !in s.open
    ensures mask == EVT_READ && Narrow(s.idle) ==> Narrow(s.idle[fd := Updated(s.idle[fd], mask, SendReply)])
  {
    hide InStep, Orderly, Live, Clients, Watchable;
    ClientBits(mask);
  }

  lemma NarrowDropped(s: Snapshot, fd: nat, mask: Mask)
    requires fd < |s.idle|
    ensures Narrow(s.idle) ==> Narrow(s.idle[fd := s.idle[fd].(mask := Without(s.idle[fd].mask, mask))])
  {
  }

  /** An unused descriptor is not registered. */
  lemma Unregistered(s: Snapshot, fd: nat, mask: Mask)
    requires s.Consistent() && fd !in s.open
    ensures fd != s.sfd && (fd < |s.idle| ==> s.idle[fd].mask == EVT_ADD && Updated(s.idle[fd], mask, SendReply).mask == mask)
  {
    hide InStep, Orderly, Live, Clients, Watchable;
    ClientBits(mask);
  }

  /** Whichever descriptor the listener's event registers, what the pass relies on holds for the events after it. */
  lemma AcceptedInPass(s: Snapshot, active: seq<Fired>, k: nat, backend: Backend, was: seq<Event>)
    requires s.Consistent() && Covering(active, k, s.sfd, s.idle) && k < |active| && active[k].fd == s.sfd
    requires AllOrNothing(backend, active[k].mask) && Dispatched(active, k, s.sfd, was, s.log)
    ensures Dispatched(active, k + 1, s.sfd, was, s.log)
    ensures forall fd: nat {:trigger AfterAccept(s, fd, active[k].mask, map[])} {:trigger Accepted(fd)} ::
              fd < |s.idle| && fd !in s.open ==>
                var idle := s.idle[fd := Updated(s.idle[fd], active[k].mask, SendReply)];
                Dispatched(active, k + 1, s.sfd, was, s.log + [Accepted(fd)]) && Covering(active, k + 1, s.sfd, idle) &&
                (Narrow(s.idle) && ListenerReads(active, s.sfd) ==> Narrow(idle))
  {
    hide InStep, Orderly, Live, Clients, Watchable, Covering, Dispatched, AllOrNothing, Narrow, Updated;
    DispatchedAccept(active, k, s.sfd, was, s.log);
    RegisteredBits(s, backend, active[k].mask);
    forall fd: nat | fd < |s.idle| && fd !in s.open
      ensures var idle := s.idle[fd := Updated(s.idle[fd], active[k].mask, SendReply)];
              Dispatched(active, k + 1, s.sfd, was, s.log + [Accepted(fd)]) && Covering(active, k + 1, s.sfd, idle) &&
              (Narrow(s.idle) && ListenerReads(active, s.sfd) ==> Narrow(idle))
    {
      var l := s.log + [Accepted(fd)];
      assert l[..|s.log|] == s.log && l[|s.log|].Accepted?;
      Unregistered(s, fd, active[k].mask);
      NarrowAdded(s, fd, active[k].mask);
      CoveringAccepted(active, k, s.sfd, s.idle, fd, Updated(s.idle[fd], active[k].mask, SendReply));
    }
  }

  lemma RegisteredBits(s: Snapshot, backend: Backend, mask: Mask)
    requires s.Consistent() && AllOrNothing(backend, mask)
    ensures ForClient(mask) && mask != 0 && s.sfd < |s.idle| && s.sfd in s.open
  {
    hide InStep, Orderly, Live, Clients, Watchable;
  }

  lemma ElsewhereMeans(before: map<nat, Mask>, after: map<nat, Mask>, fd: nat)
    requires Elsewhere(before, after, fd)
    ensures after - {fd} == before - {fd}
  {
  }

  /**
   What one event does. If the listener has fired for reading there is one attempt to accept; it finds
   nobody, or its descriptor is refused, or it is a client. If a client is registered for reading and has
   fired for it, it is answered. Nothing else happens.
   */
  ghost predicate Served(s: Snapshot, f: Fired, tries: seq<int>, s': Snapshot) {
    f.fd < |s.idle| &&
    if f.fd == s.sfd && f.mask & EVT_READ != 0 then
      |tries| == 1 &&
      if tries[0] < 0 then s' == s
      else tries[0] !in s.open &&
           (s' == s.(open := s.open + {tries[0]}, kernel := s'.kernel) ||
            (tries[0] < |s.idle| && s' == AfterAccept(s, tries[0], f.mask, s'.kernel)))
    else if f.fd != s.sfd && s.idle[f.fd].mask & EVT_READ != 0 && f.mask & EVT_READ != 0 then
      tries == [] && s' == AfterReply(s, f.fd, f.mask, s.kernel)
    else
      tries == [] && s' == s
  }

  /** A whole pass, event by event. */
  ghost predicate Passage(active: seq<Fired>, n: nat, states: seq<Snapshot>, tries: seq<seq<int>>) {
    n <= |active| && |states| == n + 1 && |tries| == n &&
    forall i :: 0 <= i < n ==> Served(states[i], active[i], tries[i], states[i + 1])
  }

  lemma PassageStart(active: seq<Fired>, s: Snapshot)
    ensures Passage(active, 0, [s], []) && Flatten<int>([]) == []
  {
  }

  lemma PassageNext(active: seq<Fired>, n: nat, states: seq<Snapshot>, tries: seq<seq<int>>, tried: seq<int>, s: Snapshot)
    requires Passage(active, n, states, tries) && n < |active| && Served(states[n], active[n], tried, s)
    ensures Passage(active, n + 1, states + [s], tries + [tried]) && Flatten(tries + [tried]) == Flatten(tries) + tried
  {
    hide Served;
    assert (tries + [tried])[..|tries|] == tries;
  }

  /**
   Event by event: an attempt to accept exactly when the listener has fired for reading, and whoever is
   accepted is counted and registered for what fired; an answer exactly when a client is registered for
   reading and has fired for it, and that client is no longer counted, and closed; otherwise nothing.
   */
  lemma PassageMeans(active: seq<Fired>, n: nat, states: seq<Snapshot>, tries: seq<seq<int>>, i: nat)
    requires Passage(active, n, states, tries) && i < n
    ensures active[i].fd < |states[i].idle|
    ensures var f, tried, s, t := active[i], tries[i], states[i], states[i + 1];
            var listening := f.fd == s.sfd && f.mask & EVT_READ != 0;
            var answering := f.fd != s.sfd && s.idle[f.fd].mask & EVT_READ != 0 && f.mask & EVT_READ != 0;
            |tried| == (if listening then 1 else 0) &&
            (t.log == s.log + [Answered(f.fd)] <==> answering) &&
            (answering ==> t.clientcount == s.clientcount - 1 && t.open == s.open - {f.fd} && f.fd !in t.kernel &&
                           t.idle == s.idle[f.fd := s.idle[f.fd].(mask := s.idle[f.fd].mask & !f.mask)]) &&
            (t.clientcount > s.clientcount ==>
               listening && 0 <= tried[0] < |s.idle| && tried[0] !in s.open && t.clientcount == s.clientcount + 1 &&
               t.open == s.open + {tried[0]} && t.log == s.log + [Accepted(tried[0])] && t.idle[tried[0]].read == SendReply) &&
            (t.clientcount == s.clientcount ==> t.log == s.log && t.idle == s.idle) &&
            (!listening && !answering ==> t == s)
  {
    var f, tried, s := active[i], tries[i], states[i];
    assert Served(s, f, tried, states[i + 1]);
    assert (s.log + [Answered(f.fd)])[|s.log|] == Answered(f.fd);
    if tried != [] && tried[0] >= 0 {
      assert (s.log + [Accepted(tried[0])])[|s.log|] == Accepted(tried[0]);
    }
  }

  /** How often the listener has fired for reading. */
  function ListenerEvents(active: seq<Fired>, n: nat, sfd: nat): nat
    requires n <= |active|
  {
    if n == 0 then 0
    else ListenerEvents(active, n - 1, sfd) + if active[n - 1].fd == sfd && active[n - 1].mask & EVT_READ != 0 then 1 else 0
  }

  /** The listener stays where it is, so a pass has exactly as many attempts as its listener has fired for reading. */
  lemma {:induction false} AttemptsInPass(active: seq<Fired>, n: nat, states: seq<Snapshot>, tries: seq<seq<int>>)
    requires Passage(active, n, states, tries)
    ensures |Flatten(tries)| == ListenerEvents(active, n, states[0].sfd) && states[n].sfd == states[0].sfd
    decreases n
  {
    if n > 0 {
      AttemptsInPass(active, n - 1, states[..n], tries[..n - 1]);
      assert Served(states[n - 1], active[n - 1], tries[n - 1], states[n]);
    }
  }

  /** With the listener registered the loop is never taken for empty. */
  lemma ListenerUp(s: Snapshot, max: int)
    requires s.Consistent() && IsMax(Masks(s.idle), max)
    ensures max >= s.sfd
  {
  }

  class Server {
    const el: EventLoop<Callback>
    const sfd: nat
    var clientcount: int
    var open: set<nat>
    ghost var log: seq<Event>
    ghost var attempts: seq<int>

    ghost function Snap(): Snapshot
      reads this, el, el.idle
    {
      Snapshot(el.idle[..], el.kernel, open, sfd, clientcount, log)
    }

    ghost predicate Valid()
      reads this, el, el.idle
    {
      el.Valid() && el.MaxRight() && Snap().Consistent()
    }

    /** serverInit, once the listener is registered: nothing else is open yet. */
    constructor (el: EventLoop<Callback>, sfd: nat)
      requires el.Valid() && el.MaxRight() && InStep(el.Registered(), el.kernel)
      requires sfd < el.count && el.idle[sfd].mask == EVT_READ && el.idle[sfd].read == AcceptClient
      requires forall fd :: 0 <= fd < el.count && fd != sfd ==> el.idle[fd].mask == EVT_ADD
      requires forall fd :: fd in el.kernel ==> fd == sfd
      ensures Valid() && this.el == el && this.sfd == sfd && clientcount == 0 && log == [] && attempts == []
    {
      this.el, this.sfd := el, sfd;
      clientcount, open, log, attempts := 0, {sfd}, [], [];
      NoClients(Masks(el.idle[..]), sfd);
    }

    /** accept: some descriptor that is not in use, or a failure. */
    method AcceptDescriptor() returns (fd: int)
      modifies this`attempts
      ensures fd >= 0 ==> fd !in open
      ensures attempts == old(attempts) + [fd]
    {
      fd := *;
      if fd in open {
        fd := -1;
      }
      attempts := attempts + [fd];
    }

    /** serverAccept: the client is registered for the bits the listener fired with. */
    method Accept(mask: Mask) returns (fd: int, status: int)
      requires Valid() && AllOrNothing(el.backend, mask)
      modifies this`clientcount, this`open, this`log, this`attempts, el`kernel, el`asked, el`max, el.idle
      ensures Valid() && status in {EVT_OK, EVT_ERR} && (fd < 0 ==> status == EVT_ERR && Snap() == old(Snap()))
      ensures fd >= 0 && status == EVT_ERR ==>
                fd !in old(open) && Snap() == old(Snap()).(open := old(open) + {fd}, kernel := el.kernel)
      ensures attempts == old(attempts) + [fd]
      ensures if fd < 0 || fd >= el.count then status == EVT_ERR && el.asked == old(el.asked)
              else old(el.asked) <= el.asked &&
                   AddAsks(el.backend, old(el.idle[fd].mask), fd, mask, el.asked[|old(el.asked)|..], status)
      ensures status == EVT_OK ==>
                0 <= fd < el.count && fd != sfd && fd !in old(open) && old(el.idle[fd]).mask == EVT_ADD &&
                el.idle[fd].mask == mask && Snap() == AfterAccept(old(Snap()), fd, mask, el.kernel)
    {
      hide InStep, Orderly, Live, Clients, IsMax, Step, Updated, Snapshot.Consistent, ForClient, AllOrNothing, AddAsks;
      RegisteredBits(Snap(), el.backend, mask);
      status := EVT_ERR;
      fd := AcceptDescriptor();
      if fd < 0 {
        return;
      }
      ghost var s, l := Snap(), el.State();
      Unregistered(s, fd, mask);
      status := el.AddEvent(fd, mask, SendReply);
      open := open + {fd};
      if status == EVT_ERR {
        RefusalKeeps(el.backend, s, fd, mask, l.max, el.State());
        if fd < el.count {
          AddedMax(el.backend, l, fd, mask, status, el.State());
        }
        return;
      }
      AcceptKeeps(el.backend, s, fd, mask, l.max, el.State());
      AddedMax(el.backend, l, fd, mask, status, el.State());
      clientcount := clientcount + 1;
      log := log + [Accepted(fd)];
      assert Snap() == AfterAccept(s, fd, mask, el.kernel);
    }

    /**
     serverSendClientReply, whatever was read and written on the way: every path ends the client. The
     accounting holds afterwards exactly when the client had fired for all it was registered for.
     */
    method SendClientReply(fd: nat, mask: Mask)
      requires Valid() && fd < el.count && fd != sfd && el.idle[fd].mask != EVT_ADD
      modifies this`clientcount, this`open, this`log, this`attempts, el`kernel, el`asked, el`max, el.idle
      ensures clientcount == old(clientcount) - 1 && log == old(log) + [Answered(fd)] && fd !in open && fd !in el.kernel
      ensures el.idle[..] == old(el.idle[..])[fd := old(el.idle[fd]).(mask := Without(old(el.idle[fd]).mask, mask))]
      ensures Snap() == AfterReply(old(Snap()), fd, mask, old(el.kernel)) && attempts == old(attempts)
      ensures el.Valid() && (Valid() <==> Without(old(el.idle[fd]).mask, mask) == EVT_ADD)
    {
      hide InStep, Orderly, Live, Clients, IsMax, Step, Snapshot.Consistent, Without;
      ghost var s, l := Snap(), el.State();
      clientcount := clientcount - 1;
      el.DeleteEvent(fd, mask);
      DeletedElsewhere(el.backend, l, fd, mask, el.State());
      if Without(s.idle[fd].mask, mask) == EVT_ADD {
        ReplyKeeps(s, fd, mask, el.kernel);
      } else {
        ReplyBreaks(s, fd, mask, el.kernel);
      }
      ghost var kernel := el.kernel;
      Close(fd);
      log := log + [Answered(fd)];
      assert kernel - {fd} == s.kernel - {fd} by {
        ElsewhereMeans(s.kernel, kernel, fd);
      }
      assert Snap() == AfterReply(s, fd, mask, kernel);
    }

    /**
     eloopProcessEvents on what the poll returned. A callback runs only for a bit that is in the mask
     at that moment, so an event left over from a client that is already gone does nothing; every
     client that fired is answered, and nobody else. Under kqueue the listener fires for reading only,
     so no client is ever registered for writing; under epoll an error makes it fire for both bits.
     */
    method ProcessEvents(active: seq<Fired>) returns (processed: nat, ghost states: seq<Snapshot>, ghost tries: seq<seq<int>>)
      requires Valid() && Covering(active, 0, sfd, el.idle[..])
      requires forall i :: 0 <= i < |active| && active[i].fd == sfd ==> AllOrNothing(el.backend, active[i].mask)
      modifies this`clientcount, this`open, this`log, this`attempts, el`kernel, el`asked, el`max, el.idle
      ensures Valid() && processed == |active|
      ensures Dispatched(active, |active|, sfd, old(log), log)
      ensures Passage(active, |active|, states, tries) && states[0] == old(Snap()) && states[|active|] == Snap()
      ensures attempts == old(attempts) + Flatten(tries) && |Flatten(tries)| == ListenerEvents(active, |active|, sfd)
      ensures Narrow(old(el.idle[..])) && ListenerReads(active, sfd) ==> Narrow(el.idle[..])
    {
      hide InStep, Orderly, Live, IsMax, Step, Clients, Snapshot.Consistent, Dispatched, Reads;
      hide Without, Narrow, AllOrNothing, Updated, Covering, ListenerReads, Passage, AddAsks;
      processed := 0;
      ListenerUp(Snap(), el.max);
      if el.max == -1 {
        assert false;
      }
      DispatchedStart(active, sfd, log);
      states, tries := [Snap()], [];
      PassageStart(active, Snap());
      for i := 0 to |active|
        invariant Valid() && processed == i && Covering(active, i, sfd, el.idle[..])
        invariant Dispatched(active, i, sfd, old(log), log)
        invariant |states| == i + 1 && |tries| == i && Passage(active, i, states, tries)
        invariant states[0] == old(Snap()) && states[i] == Snap() && attempts == old(attempts) + Flatten(tries)
        invariant Narrow(old(el.idle[..])) && ListenerReads(active, sfd) ==> Narrow(el.idle[..])
      {
        AfterFiring(Snap(), active, i);
        var fd, mask, fired := active[i].fd, active[i].mask, 0;
        var ev := el.idle[fd];
        Firing(Snap(), fd, mask);
        EventBits(Snap(), fd, mask);
        ghost var tried: seq<int> := [];
        CoveringNext(active, i, sfd, el.idle[..]);
        if ev.mask & mask & EVT_READ != 0 {
          if ev.read == AcceptClient {
            AcceptedInPass(Snap(), active, i, el.backend, old(log));
            var accepted, _ := Accept(mask);
            tried := [accepted];
          } else {
            DispatchedReply(active, i, sfd, old(log), log);
            NarrowDropped(Snap(), fd, mask);
            CoveringAnswered(active, i, sfd, el.idle[..], ev.(mask := Without(ev.mask, mask)));
            SendClientReply(fd, mask);
          }
          fired := fired + 1;
          ev := el.idle[fd];
        } else {
          DispatchedNothing(active, i, sfd, old(log), log);
        }
        if ev.mask & mask & EVT_WRITE != 0 {
          // A listener has no write bit, and a client that is due loses all its bits to the read callback.
          assert false;
        }
        assert Served(states[i], active[i], tried, Snap());
        PassageNext(active, i, states, tries, tried, Snap());
        states, tries := states + [Snap()], tries + [tried];
        processed := processed + 1;
      }
      AttemptsInPass(active, |active|, states, tries);
    }

    /** close: the descriptor is free again, and the kernel forgets it. */
    method Close(fd: nat)
      modifies this`open, el`kernel
      ensures open == old(open) - {fd} && el.kernel == old(el.kernel) - {fd}
    {
      open := open - {fd};
      el.kernel := el.kernel - {fd};
    }
  }

  lemma AddedMax(backend: Backend, s: LoopState, fd: nat, mask: Mask, status: int, s': LoopState)
    requires IsMax(s.masks, s.max) && mask != 0 && Step(backend, s, AddOp(fd, mask, status), s')
    ensures IsMax(s'.masks, s'.max)
  {
    AddKeepsMaxIff(s.masks, s.max, fd, mask);
  }

  lemma DeletedElsewhere(backend: Backend, s: LoopState, fd: nat, mask: Mask, s': LoopState)
    requires Step(backend, s, DeleteOp(fd, mask), s')
    ensures Elsewhere(s.kernel, s'.kernel, fd) && (IsMax(s.masks, s.max) ==> IsMax(s'.masks, s'.max))
  {
    hide IsMax, Elsewhere, Deleted, Without, Watched, MaxAfterDrop;
    if IsMax(s.masks, s.max) && s.masks[fd] != EVT_ADD {
      DropKeepsMax(s.masks, s.max, fd, mask);
    }
  }

  /**
   The loop and the listener of serverInit, which does not look at whether the listener was registered.
   If it was not, `max` is still -1, and every pass of the loop returns without polling.
   */
  method ServerInit(count: nat, backend: Backend, sfd: nat)
    returns (el: EventLoop<Callback>, status: int, server: Server?)
    ensures fresh(el) && fresh(el.idle) && el.Valid() && el.MaxRight() && el.count == count && el.backend == backend
    ensures status in {EVT_OK, EVT_ERR} && (server == null <==> status == EVT_ERR) && (sfd >= count ==> status == EVT_ERR)
    ensures status == EVT_ERR ==> el.max == -1 && forall fd :: 0 <= fd < count ==> el.idle[fd].mask == EVT_ADD
    ensures server != null ==>
              fresh(server) && server.Valid() && Narrow(el.idle[..]) && server.el == el && server.sfd == sfd &&
              server.clientcount == 0 && server.log == [] && server.attempts == []
    ensures sfd < count ==> AddAsks(backend, EVT_ADD, sfd, EVT_READ, el.asked, status)
  {
    el := new EventLoop<Callback>(count, backend);
    ghost var s, table := el.State(), el.idle[..];
    status := el.AddEvent(sfd, EVT_READ, AcceptClient);
    if status == EVT_ERR {
      assert el.idle[..] == table;
      assert forall fd :: 0 <= fd < count ==> el.idle[fd] == table[fd];
      return el, status, null;
    }
    ClientBits(EVT_READ);
    FreshInStep(s.masks);
    AddedMax(backend, s, sfd, EVT_READ, status, el.State());
    AcceptInStep(backend, s.masks, s.kernel, sfd, EVT_READ, s.max, el.State());
    assert el.State().masks == s.masks[sfd := EVT_READ];
    server := new Server(el, sfd);
    RegisteredBits(server.Snap(), backend, EVT_READ);
    ListenerBits(EVT_READ);
  }

  lemma FreshInStep(masks: seq<Mask>)
    requires forall i :: 0 <= i < |masks| ==> masks[i] == 0
    ensures InStep(masks, map[])
  {
  }

  /** A reply leaves the count right exactly when the bits that fired are all the bits the client had. */
  lemma ReplyCountsIff(masks: seq<Mask>, sfd: nat, fd: nat, mask: Mask)
    requires fd < |masks| && fd != sfd && masks[fd] != 0
    ensures Clients(masks[fd := masks[fd] & !mask], sfd) == Clients(masks, sfd) - 1 <==> masks[fd] & !mask == 0
  {
    ClientsUpdate(masks, sfd, fd, masks[fd] & !mask);
  }

  /**
   A run of the server: start-up, then any number of polls in which the listener fires for reading only.
   Under kqueue it always does.
   */
  method Run(count: nat, backend: Backend, sfd: nat, polls: seq<seq<Fired>>)
    returns (el: EventLoop<Callback>, server: Server?)
    requires forall p, i :: 0 <= p < |polls| && 0 <= i < |polls[p]| ==> polls[p][i].fd < count
    requires forall p :: 0 <= p < |polls| ==> ListenerReads(polls[p], sfd)
    ensures server != null ==>
              server.Valid() && server.el.backend == backend && server.clientcount == Clients(server.el.Registered(), sfd)
    ensures server != null ==> Orderly(server.log) && |server.attempts| == AllListenerEvents(polls, sfd)
    ensures server == null ==> sfd >= count || AddAsks(backend, EVT_ADD, sfd, EVT_READ, el.asked, EVT_ERR)
  {
    hide Snapshot.Consistent, Narrow, Covering, ListenerReads, AddAsks;
    var status;
    el, status, server := ServerInit(count, backend, sfd);
    if server == null {
      return;
    }
    for p := 0 to |polls|
      invariant server.Valid() && server.el == el && server.sfd == sfd && Narrow(el.idle[..])
      invariant |server.attempts| == AllListenerEvents(polls[..p], sfd)
    {
      assert polls[..p + 1][..p] == polls[..p];
      ReadersCover(server.Snap(), polls[p]);
      ListenersOnly(polls[p], sfd, backend);
      var _, _, _ := server.ProcessEvents(polls[p]);
    }
    assert polls[..|polls|] == polls;
    Accounted(server.Snap());
  }

  /** How often the listener has fired for reading, over all polls. */
  function AllListenerEvents(polls: seq<seq<Fired>>, sfd: nat): nat {
    if polls == [] then 0
    else
      var last := polls[|polls| - 1];
      AllListenerEvents(polls[..|polls| - 1], sfd) + ListenerEvents(last, |last|, sfd)
  }

  lemma ListenersOnly(active: seq<Fired>, sfd: nat, backend: Backend)
    requires ListenerReads(active, sfd)
    ensures forall i :: 0 <= i < |active| && active[i].fd == sfd ==> AllOrNothing(backend, active[i].mask)
  {
  }

  lemma Accounted(s: Snapshot)
    requires s.Consistent()
    ensures s.clientcount == Clients(Masks(s.idle), s.sfd) && Orderly(s.log)
  {
  }

  /**
   Under epoll an error on the listener makes it fire for both bits. The client accepted then has only
   to fire for writing alone: it is answered, closed and no longer counted, and still registered. Its
   descriptor cannot be registered again.
   */
  method Miscount(count: nat, sfd: nat) returns (miscounted: bool, el: EventLoop<Callback>, server: Server?, fd: int)
    ensures miscounted ==>
              server != null && server.el == el && el.Valid() && !server.Valid() && server.clientcount == 0 &&
              0 <= fd < count == el.count && fd !in server.open && el.idle[fd].mask == EVT_READ &&
              el.backend == Epoll && Stranded(el.State(), fd)
    ensures server == null ==> sfd >= count || AddAsks(Epoll, EVT_ADD, sfd, EVT_READ, el.asked, EVT_ERR)
    ensures server != null ==>
              server.attempts == [fd] &&
              (miscounted || fd < 0 || fd >= count || (el.asked != [] && !el.asked[|el.asked| - 1].granted))
  {
    hide Snapshot.Consistent, Narrow, AddAsks;
    miscounted, fd := false, -1;
    var status;
    el, status, server := ServerInit(count, Epoll, sfd);
    if server == null {
      return;
    }
    BothBits();
    ghost var registered, asked := Masks(el.idle[..]), el.asked;
    fd, status := server.Accept(EVT_BOTH);
    if status == EVT_ERR {
      if 0 <= fd < count {
        RefusedAsk(registered[fd], fd, asked, el.asked);
      }
      return;
    }
    server.SendClientReply(fd, EVT_WRITE);
    miscounted := true;
  }

  lemma RefusedAsk(registered: Mask, fd: nat, before: seq<Ask>, after: seq<Ask>)
    requires before <= after && AddAsks(Epoll, registered, fd, EVT_BOTH, after[|before|..], EVT_ERR)
    ensures after != [] && !after[|after| - 1].granted
  {
    assert after[|after| - 1] == after[|before|..][0];
  }

  lemma BothBits()
    ensures AllOrNothing(Epoll, EVT_BOTH) && Without(EVT_BOTH, EVT_WRITE) == EVT_READ && EVT_READ != EVT_ADD
  {
  }
}
