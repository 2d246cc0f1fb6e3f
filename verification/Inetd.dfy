/** inetd: which sockets are listened to while servers run, as a machine of small steps.

    The main loop, the signal handler and the children take turns in any order, except that the
    main loop stands still while the handler runs, and that the handler does not start while
    SIGCHLD is blocked. */
module Inetd {

  datatype Kind = Udp | Tcp | RpcUdp | RpcTcp

  /** fd is negative if the service could not be set up. */
  datatype Service = Service(kind: Kind, fd: int)

  /** Where the main loop is. */
  datatype Place =
    | Top
    | Selecting(readable: set<int>)
    | Chosen(i: nat)
    | Blocking(i: nat)
    | Forking(i: nat)
    | Forked(i: nat, pid: int)      // the child runs, but se_pid is not set
    | Noted(i: nat, pid: int)       // se_pid is set, but the socket is still listened to
    | Unblocking

  datatype Child = Child(owner: nat, exited: bool)

  datatype State = State(
    allsock: set<int>,
    sepid: seq<int>,
    place: Place,
    blocked: bool,                  // SIGCHLD
    pending: bool,
    handling: bool,                 // reapchild is running
    children: map<int, Child>)      // those not yet reaped

  datatype Event =
    | StartSelect
    | Interrupted                   // select fails, or accept does
    | Ready(s: int)
    | Accept
    | Block
    | ForkFails
    | Fork(pid: int)
    | NotePid
    | ClearSocket
    | Unblock
    | Exit(pid: int)
    | Deliver
    | Reap(pid: int)
    | Return

  predicate Waits(k: Kind) {
    k != Tcp
  }

  ghost predicate Init(sv: seq<Service>, s: State) {
    && |s.sepid| == |sv| && (forall i :: 0 <= i < |sv| ==> s.sepid[i] == 0)
    && s.place == Top && !s.blocked && !s.pending && !s.handling && s.children == map[]
  }

  /** What reapchild adds to allsock for a pid. */
  function Restored(sv: seq<Service>, sepid: seq<int>, pid: int): set<int>
    requires |sepid| == |sv|
  {
    set i | 0 <= i < |sv| && sepid[i] == pid :: sv[i].fd
  }

  predicate Main(e: Event) {
    !(e.Exit? || e.Deliver? || e.Reap? || e.Return?)
  }

  ghost predicate Step(sv: seq<Service>, s: State, e: Event, s': State) {
    && (Main(e) ==> !s.handling)
    && |s.sepid| == |sv|
    && match e
       case StartSelect => s.place == Top && s' == s.(place := Selecting(s.allsock))
       case Interrupted => (s.place.Selecting? || s.place.Blocking?) && s' == s.(place := Top)
       case Ready(f) =>
         && s.place.Selecting? && f in s.place.readable
         && exists i :: 0 <= i < |sv| && sv[i].fd == f && s' == s.(place := Chosen(i))
       case Accept => s.place.Chosen? && s' == s.(place := Blocking(s.place.i))
       case Block => s.place.Blocking? && s' == s.(place := Forking(s.place.i), blocked := true)
       case ForkFails => s.place.Forking? && s' == s.(place := Top)   // SIGCHLD stays blocked
       case Fork(pid) =>
         && s.place.Forking? && pid > 0 && pid !in s.children
         && s' == s.(place := Forked(s.place.i, pid), children := s.children[pid := Child(s.place.i, false)])
       case NotePid =>
         && s.place.Forked? && s.place.i < |sv|
         && s' == s.(place := Noted(s.place.i, s.place.pid),
                     sepid := if Waits(sv[s.place.i].kind) then s.sepid[s.place.i := s.place.pid] else s.sepid)
       case ClearSocket =>
         && s.place.Noted? && s.place.i < |sv|
         && s' == s.(place := Unblocking,
                     allsock := if Waits(sv[s.place.i].kind) then s.allsock - {sv[s.place.i].fd} else s.allsock)
       case Unblock => s.place == Unblocking && s' == s.(place := Top, blocked := false)
       case Exit(pid) =>
         && pid in s.children && !s.children[pid].exited
         && s' == s.(children := s.children[pid := Child(s.children[pid].owner, true)], pending := true)
       case Deliver => s.pending && !s.blocked && !s.handling && s' == s.(pending := false, handling := true)
       case Reap(pid) =>
         && s.handling && pid in s.children && s.children[pid].exited
         && s' == s.(children := s.children - {pid}, allsock := s.allsock + Restored(sv, s.sepid, pid))
       case Return =>
         && s.handling && (forall pid :: pid in s.children ==> !s.children[pid].exited)
         && s' == s.(handling := false)
  }

  // ---- What every step keeps ----

  /** The service the main loop is about to give a child, or has just given one. */
  function Served(p: Place): (i: int)
    ensures i >= -1
  {
    match p
    case Chosen(i) => i
    case Blocking(i) => i
    case Forking(i) => i
    case Forked(i, _) => i
    case Noted(i, _) => i
    case _ => -1
  }

  /** The child is made, but allsock does not say so yet. */
  predicate Critical(p: Place, i: nat) {
    (p.Forked? || p.Noted?) && p.i == i
  }

  ghost predicate Places(sv: seq<Service>, s: State) {
    && (s.place.Selecting? ==> s.place.readable <= s.allsock)
    && |s.sepid| == |sv| && Served(s.place) < |sv|
    && (Served(s.place) >= 0 ==> sv[Served(s.place)].fd in s.allsock)
    && (s.place.Forking? || s.place.Forked? || s.place.Noted? || s.place == Unblocking ==> s.blocked)
    && (s.blocked ==> !s.handling)
    && (s.place.Forked? || s.place.Noted? ==>
          s.place.pid in s.children && s.children[s.place.pid].owner == s.place.i && s.place.pid > 0)
    && (s.place.Noted? && Waits(sv[s.place.i].kind) ==> s.sepid[s.place.i] == s.place.pid)
  }

  /** Service i has a child that is recorded. */
  ghost predicate HasServer(s: State, i: nat)
    requires i < |s.sepid|
  {
    s.sepid[i] in s.children && s.children[s.sepid[i]].owner == i
  }

  /** A service that waits has at most one unreaped child, which is the one recorded, except for
      the moment between the fork and the recording; and it is not listened to exactly while it
      has one. */
  ghost predicate OneServer(sv: seq<Service>, socks: set<int>, s: State, i: nat)
    requires i < |sv| == |s.sepid|
  {
    && (forall pid :: pid in s.children && s.children[pid].owner == i ==>
          if Critical(s.place, i) then pid == s.place.pid
          else sv[i].fd !in s.allsock && pid == s.sepid[i])
    && (sv[i].fd in socks && sv[i].fd !in s.allsock ==> HasServer(s, i))
  }

  /** A service whose connections the main loop accepts itself is always listened to, and no pid is recorded for it. */
  ghost predicate Heard(sv: seq<Service>, socks: set<int>, s: State)
    requires |sv| == |s.sepid|
  {
    forall i :: 0 <= i < |sv| && sv[i].kind == Tcp ==> s.sepid[i] == 0 && (sv[i].fd in socks ==> sv[i].fd in s.allsock)
  }

  /** socks are the sockets of the services that were set up. */
  ghost predicate Inv(sv: seq<Service>, socks: set<int>, s: State) {
    && |s.sepid| == |sv| && s.allsock <= socks
    && (forall i :: 0 <= i < |sv| && s.sepid[i] != 0 ==> sv[i].fd in socks)
    && (forall pid :: pid in s.children ==> pid > 0 && s.children[pid].owner < |sv| && sv[s.children[pid].owner].fd in socks)
    && Places(sv, s) && Heard(sv, socks, s)
    && (forall i :: 0 <= i < |sv| && Waits(sv[i].kind) ==> OneServer(sv, socks, s, i))
    && (AnyExited(s) ==> s.pending || s.handling)
  }

  ghost predicate AnyExited(s: State) {
    exists pid :: pid in s.children && s.children[pid].exited
  }

  /** Sockets belong to services that were set up, and no two services share one. */
  ghost predicate Table(sv: seq<Service>, socks: set<int>) {
    && (forall f :: f in socks ==> f >= 0)
    && (forall i, j :: 0 <= i < j < |sv| && sv[i].fd in socks ==> sv[i].fd != sv[j].fd)
  }

  lemma InitInv(sv: seq<Service>, s: State)
    requires Init(sv, s)
    ensures Inv(sv, s.allsock, s)
  {
  }

  /** Every step keeps the invariant. */
  lemma StepKeeps(sv: seq<Service>, socks: set<int>, s: State, e: Event, s': State)
    requires Table(sv, socks) && Inv(sv, socks, s) && Step(sv, s, e, s')
    ensures Inv(sv, socks, s')
  {
    match e {
      case Fork(_) => ForkKeeps(sv, socks, s, e, s');
      case NotePid => NoteKeeps(sv, socks, s, e, s');
      case ClearSocket => ClearKeeps(sv, socks, s, e, s');
      case Exit(_) => ExitKeeps(sv, socks, s, e, s');
      case Reap(_) => ReapKeeps(sv, socks, s, e, s');
      case _ => MoveKeeps(sv, socks, s, e, s');
    }
  }

  /** Steps that change no child, no pid and no socket. */
  lemma MoveKeeps(sv: seq<Service>, socks: set<int>, s: State, e: Event, s': State)
    requires Inv(sv, socks, s) && Step(sv, s, e, s')
    requires !(e.Fork? || e.NotePid? || e.ClearSocket? || e.Exit? || e.Reap?)
    ensures Inv(sv, socks, s')
  {
    assert s'.children == s.children && s'.sepid == s.sepid && s'.allsock == s.allsock;
    forall i | 0 <= i < |sv| && Waits(sv[i].kind)
      ensures OneServer(sv, socks, s', i)
    {
      assert OneServer(sv, socks, s, i);
      assert Critical(s'.place, i) <==> Critical(s.place, i);
    }
    if AnyExited(s') {
      assert AnyExited(s);
    }
  }

  lemma ForkKeeps(sv: seq<Service>, socks: set<int>, s: State, e: Event, s': State)
    requires Inv(sv, socks, s) && Step(sv, s, e, s') && e.Fork?
    ensures Inv(sv, socks, s')
  {
    forall i | 0 <= i < |sv| && Waits(sv[i].kind)
      ensures OneServer(sv, socks, s', i)
    {
      assert OneServer(sv, socks, s, i);
    }
    if AnyExited(s') {
      var pid :| pid in s'.children && s'.children[pid].exited;
      assert pid in s.children && s.children[pid].exited;
    }
  }

  lemma NoteKeeps(sv: seq<Service>, socks: set<int>, s: State, e: Event, s': State)
    requires Inv(sv, socks, s) && Step(sv, s, e, s') && e.NotePid?
    ensures Inv(sv, socks, s')
  {
    forall i | 0 <= i < |sv| && Waits(sv[i].kind)
      ensures OneServer(sv, socks, s', i)
    {
      assert OneServer(sv, socks, s, i);
    }
    assert AnyExited(s') ==> AnyExited(s);
  }

  lemma ClearKeeps(sv: seq<Service>, socks: set<int>, s: State, e: Event, s': State)
    requires Table(sv, socks) && Inv(sv, socks, s) && Step(sv, s, e, s') && e.ClearSocket?
    ensures Inv(sv, socks, s')
  {
    forall i | 0 <= i < |sv| && Waits(sv[i].kind)
      ensures OneServer(sv, socks, s', i)
    {
      assert OneServer(sv, socks, s, i);
    }
    assert AnyExited(s') ==> AnyExited(s);
  }

  lemma ExitKeeps(sv: seq<Service>, socks: set<int>, s: State, e: Event, s': State)
    requires Inv(sv, socks, s) && Step(sv, s, e, s') && e.Exit?
    ensures Inv(sv, socks, s')
  {
    forall i | 0 <= i < |sv| && Waits(sv[i].kind)
      ensures OneServer(sv, socks, s', i)
    {
      assert OneServer(sv, socks, s, i);
    }
  }

  /** A stale se_pid equal to the reaped child's belongs to a service that has no child, and so
      is listened to already. */
  lemma ReapKeeps(sv: seq<Service>, socks: set<int>, s: State, e: Event, s': State)
    requires Table(sv, socks) && Inv(sv, socks, s) && Step(sv, s, e, s') && e.Reap?
    ensures Inv(sv, socks, s')
  {
    forall i | 0 <= i < |sv| && Waits(sv[i].kind)
      ensures OneServer(sv, socks, s', i)
    {
      assert OneServer(sv, socks, s, i);
    }
    if AnyExited(s') {
      var pid :| pid in s'.children && s'.children[pid].exited;
      assert pid in s.children && s.children[pid].exited;
    }
  }

  // ---- Runs ----

  ghost predicate Run(sv: seq<Service>, states: seq<State>, events: seq<Event>) {
    && |states| == |events| + 1 && Init(sv, states[0])
    && forall k :: 0 <= k < |events| ==> Step(sv, states[k], events[k], states[k + 1])
  }

  /** No two unreaped children belong to service i. */
  ghost predicate AtMostOne(s: State, i: nat) {
    forall p, q :: p in s.children && q in s.children && s.children[p].owner == i && s.children[q].owner == i ==> p == q
  }

  /** Service i is not listened to exactly while the child it recorded is unreaped. */
  ghost predicate ClearIffServed(sv: seq<Service>, s: State, i: nat)
    requires i < |sv| == |s.sepid|
  {
    sv[i].fd !in s.allsock <==> HasServer(s, i)
  }

  /** What holds between any two steps of any run; a child that has exited is about to be reaped. */
  ghost predicate Safe(sv: seq<Service>, socks: set<int>, s: State) {
    && |s.sepid| == |sv|
    && (forall i :: 0 <= i < |sv| && (sv[i].kind == Udp || sv[i].kind == RpcUdp || sv[i].kind == RpcTcp) ==> AtMostOne(s, i))
    && (forall i :: 0 <= i < |sv| && (sv[i].kind == Udp || sv[i].kind == RpcUdp || sv[i].kind == RpcTcp) ==>
          sv[i].fd in socks && !Critical(s.place, i) ==> ClearIffServed(sv, s, i))
    && (forall i :: 0 <= i < |sv| && sv[i].kind == Tcp ==> s.sepid[i] == 0 && (sv[i].fd in socks ==> sv[i].fd in s.allsock))
    && s.allsock <= socks
    && (AnyExited(s) ==> s.pending || s.handling)
  }

  lemma InvIsSafe(sv: seq<Service>, socks: set<int>, s: State)
    requires Inv(sv, socks, s)
    ensures Safe(sv, socks, s)
  {
    forall i | 0 <= i < |sv| && Waits(sv[i].kind)
      ensures AtMostOne(s, i)
    {
      assert OneServer(sv, socks, s, i);
    }
    forall i | 0 <= i < |sv| && Waits(sv[i].kind) && sv[i].fd in socks && !Critical(s.place, i)
      ensures ClearIffServed(sv, s, i)
    {
      assert OneServer(sv, socks, s, i);
      var pid := s.sepid[i];
      assert HasServer(s, i) ==> pid in s.children && s.children[pid].owner == i && sv[i].fd !in s.allsock;
    }
  }

  lemma {:induction false} RunKeeps(sv: seq<Service>, states: seq<State>, events: seq<Event>, k: nat)
    requires Run(sv, states, events) && Table(sv, states[0].allsock) && k < |states|
    ensures Inv(sv, states[0].allsock, states[k])
  {
    if k == 0 {
      InitInv(sv, states[0]);
    } else {
      RunKeeps(sv, states, events, k - 1);
      StepKeeps(sv, states[0].allsock, states[k - 1], events[k - 1], states[k]);
    }
  }

  /** In every run a udp or rpc service never has two unreaped servers, and it is not listened to
      exactly while the one recorded is unreaped; a tcp service is always listened to. */
  lemma EveryRunIsSafe(sv: seq<Service>, states: seq<State>, events: seq<Event>, k: nat)
    requires Run(sv, states, events) && Table(sv, states[0].allsock) && k < |states|
    ensures Safe(sv, states[0].allsock, states[k])
  {
    RunKeeps(sv, states, events, k);
    InvIsSafe(sv, states[0].allsock, states[k]);
  }

  // ---- After a fork that fails ----

  /** SIGCHLD is blocked, and the main loop has not come to a fork that succeeds. */
  predicate HeldUp(s: State) {
    s.blocked && !s.handling && (s.place == Top || s.place.Selecting? || s.place.Chosen? || s.place.Blocking? || s.place.Forking?)
  }

  lemma {:induction false} StaysHeldUp(sv: seq<Service>, states: seq<State>, events: seq<Event>, k: nat, j: nat)
    requires Run(sv, states, events) && k <= j < |states| && HeldUp(states[k])
    requires forall i :: k <= i < j ==> !events[i].Fork?
    ensures HeldUp(states[j])
    decreases j
  {
    if k < j {
      StaysHeldUp(sv, states, events, k, j - 1);
      assert Step(sv, states[j - 1], events[j - 1], states[j]);
    }
  }

  lemma {:induction false} StaysBlocked(sv: seq<Service>, states: seq<State>, events: seq<Event>, k: nat, j: nat)
    requires Run(sv, states, events) && k <= j < |states| && states[k].blocked && !states[k].handling
    requires forall i :: k <= i < j ==> !events[i].Unblock?
    ensures states[j].blocked && !states[j].handling
    decreases j
  {
    if k < j {
      StaysBlocked(sv, states, events, k, j - 1);
      assert Step(sv, states[j - 1], events[j - 1], states[j]);
    }
  }

  /** After a fork that fails no child is reaped until a later fork has succeeded and SIGCHLD has been
      let in again. */
  lemma ReapWaitsForFork(sv: seq<Service>, states: seq<State>, events: seq<Event>, k: nat, j: nat)
    requires Run(sv, states, events) && Table(sv, states[0].allsock)
    requires k < j < |events| && events[k].ForkFails? && events[j].Reap?
    ensures exists f, i :: k < f < i < j && events[f].Fork? && events[i].Unblock?
  {
    RunKeeps(sv, states, events, k);
    assert Step(sv, states[k], events[k], states[k + 1]) && Step(sv, states[j], events[j], states[j + 1]);
    if forall i :: k < i < j ==> !events[i].Unblock? {
      StaysBlocked(sv, states, events, k + 1, j);
    }
    var i :| k < i < j && events[i].Unblock?;
    assert Step(sv, states[i], events[i], states[i + 1]);
    if forall f :: k < f < i ==> !events[f].Fork? {
      StaysHeldUp(sv, states, events, k + 1, i);
    }
  }

  lemma OneStepMore(sv: seq<Service>, states: seq<State>, events: seq<Event>, e: Event, s: State)
    requires Run(sv, states, events) && Step(sv, states[|events|], e, s)
    ensures Run(sv, states + [s], events + [e])
  {
    var states', events' := states + [s], events + [e];
    forall k | 0 <= k < |events'|
      ensures Step(sv, states'[k], events'[k], states'[k + 1])
    {
      assert k < |events| ==> Step(sv, states[k], events[k], states[k + 1]);
    }
  }

  lemma NextStep(sv: seq<Service>, states: seq<State>, events: seq<Event>, e: Event, s: State)
    returns (states': seq<State>, events': seq<Event>)
    requires Run(sv, states, events) && Step(sv, states[|events|], e, s)
    ensures Run(sv, states', events') && states'[0] == states[0] && states'[|events'|] == s
  {
    OneStepMore(sv, states, events, e, s);
    states', events' := states + [s], events + [e];
  }

  /** The first of two services gets a server. */
  lemma FirstServed(sv: seq<Service>, s0: State) returns (states: seq<State>, events: seq<Event>)
    requires sv == [Service(Udp, 3), Service(Udp, 4)] && s0 == State({3, 4}, [0, 0], Top, false, false, false, map[])
    ensures Run(sv, states, events) && states[0] == s0
    ensures states[|events|] == State({4}, [7, 0], Top, false, false, false, map[7 := Child(0, false)])
  {
    var s1 := s0.(place := Selecting({3, 4}));
    var s2, s3 := s1.(place := Chosen(0)), s1.(place := Blocking(0));
    var s4 := s1.(place := Forking(0), blocked := true);
    var s5 := s4.(place := Forked(0, 7), children := map[7 := Child(0, false)]);
    var s6 := s5.(place := Noted(0, 7), sepid := [7, 0]);
    var s7 := s6.(place := Unblocking, allsock := {4});
    var s8 := s7.(place := Top, blocked := false);
    states, events := [s0], [];
    states, events := NextStep(sv, states, events, StartSelect, s1);
    assert sv[0].fd == 3;
    states, events := NextStep(sv, states, events, Ready(3), s2);
    states, events := NextStep(sv, states, events, Accept, s3);
    states, events := NextStep(sv, states, events, Block, s4);
    states, events := NextStep(sv, states, events, Fork(7), s5);
    states, events := NextStep(sv, states, events, NotePid, s6);
    states, events := NextStep(sv, states, events, ClearSocket, s7);
    states, events := NextStep(sv, states, events, Unblock, s8);
  }

  /** For example, with two services: the server of the first has exited, but its socket is not
      listened to, and SIGCHLD is blocked since a fork for the second failed. */
  lemma Stuck() returns (sv: seq<Service>, states: seq<State>, events: seq<Event>)
    ensures Run(sv, states, events) && Table(sv, states[0].allsock) && |sv| == 2 && Waits(sv[0].kind)
    ensures var s := states[|events|];
      && HeldUp(s) && sv[0].fd in states[0].allsock && sv[0].fd !in s.allsock
      && exists pid :: pid in s.children && s.children[pid] == Child(0, true)
  {
    sv := [Service(Udp, 3), Service(Udp, 4)];
    var s0 := State({3, 4}, [0, 0], Top, false, false, false, map[]);
    states, events := FirstServed(sv, s0);
    var s8 := states[|events|];
    var s9 := s8.(place := Selecting({4}));
    var s10, s11 := s8.(place := Chosen(1)), s8.(place := Blocking(1));
    var s12 := s8.(place := Forking(1), blocked := true);
    var s13 := s8.(blocked := true);
    var s14 := s13.(children := map[7 := Child(0, true)], pending := true);
    states, events := NextStep(sv, states, events, StartSelect, s9);
    assert sv[1].fd == 4;
    states, events := NextStep(sv, states, events, Ready(4), s10);
    states, events := NextStep(sv, states, events, Accept, s11);
    states, events := NextStep(sv, states, events, Block, s12);
    states, events := NextStep(sv, states, events, ForkFails, s13);
    states, events := NextStep(sv, states, events, Exit(7), s14);
    assert 7 in s14.children;
  }

  // ---- The loops over the table ----

  class Daemon {
    const servtab: array<Service>
    const sepid: array<int>
    var allsock: set<int>

    ghost predicate Valid()
      reads this
    {
      servtab.Length == sepid.Length
    }

    constructor (servtab: array<Service>, sepid: array<int>)
      requires servtab.Length == sepid.Length
      ensures Valid() && this.servtab == servtab && this.sepid == sepid && allsock == {}
    {
      this.servtab, this.sepid, allsock := servtab, sepid, {};
    }

    /** The fields have the values they have in a state of the machine. */
    ghost predicate Shows(sv: seq<Service>, s: State)
      reads this, servtab, sepid
    {
      Valid() && servtab[..] == sv && sepid[..] == s.sepid && allsock == s.allsock
    }

    /** What reapchild does for one pid: the step Reap. */
    method Restore(pid: int, ghost sv: seq<Service>, ghost s: State) returns (ghost s': State)
      requires Shows(sv, s) && s.handling && pid in s.children && s.children[pid].exited
      modifies this`allsock
      ensures Step(sv, s, Reap(pid), s') && Shows(sv, s')
    {
      var i := 0;
      while i < servtab.Length
        invariant 0 <= i <= servtab.Length
        invariant allsock == old(allsock) + set j | 0 <= j < i && sepid[j] == pid :: servtab[j].fd
      {
        if sepid[i] == pid {
          allsock := allsock + {servtab[i].fd};
        }
        i := i + 1;
      }
      assert allsock == s.allsock + Restored(sv, s.sepid, pid);
      s' := s.(children := s.children - {pid}, allsock := s.allsock + Restored(sv, s.sepid, pid));
    }

    /** The search for the service whose socket is ready: the step Ready; it never comes to the abort. */
    method Find(f: int, ghost sv: seq<Service>, ghost socks: set<int>, ghost s: State) returns (i: nat, ghost s': State)
      requires Shows(sv, s) && Owned(sv, socks) && Inv(sv, socks, s)
      requires s.place.Selecting? && f in s.place.readable && !s.handling
      ensures Step(sv, s, Ready(f), s') && Shows(sv, s') && s'.place == Chosen(i)
    {
      i := 0;
      while servtab[i].fd != f
        invariant i < servtab.Length && exists k :: i <= k < servtab.Length && servtab[k].fd == f
        decreases servtab.Length - i
      {
        i := i + 1;
      }
      s' := s.(place := Chosen(i));
      assert sv[i].fd == f;
    }

    /** sep->se_pid = pid, with SIGCHLD blocked: the step NotePid. */
    method SetPid(i: nat, pid: int, ghost sv: seq<Service>, ghost s: State) returns (ghost s': State)
      requires Shows(sv, s) && s.place == Forked(i, pid) && i < |sv| && !s.handling
      modifies sepid
      ensures Step(sv, s, NotePid, s') && Shows(sv, s')
    {
      if servtab[i].kind != Tcp {
        sepid[i] := pid;
      }
      s' := s.(place := Noted(i, pid), sepid := if Waits(sv[i].kind) then s.sepid[i := pid] else s.sepid);
      assert sepid[..] == s'.sepid;
    }

    /** allsock &= ~(1<<s): the step ClearSocket. */
    method Clear(i: nat, ghost sv: seq<Service>, ghost s: State) returns (ghost s': State)
      requires Shows(sv, s) && s.place.Noted? && s.place.i == i && i < |sv| && !s.handling
      modifies this`allsock
      ensures Step(sv, s, ClearSocket, s') && Shows(sv, s')
    {
      if servtab[i].kind != Tcp {
        allsock := allsock - {servtab[i].fd};
      }
      s' := s.(place := Unblocking, allsock := if Waits(sv[i].kind) then s.allsock - {sv[i].fd} else s.allsock);
    }
  }

  /** Every socket listened to belongs to a service. */
  ghost predicate Owned(sv: seq<Service>, socks: set<int>) {
    forall f :: f in socks ==> exists i :: 0 <= i < |sv| && sv[i].fd == f
  }
}
