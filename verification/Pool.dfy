/** The connection pool as steps of threads that interleave: each step is one
    stretch under the mutex, or what happens outside of it. */
module Pool {
  import opened Bytes
  import opened DistinctLists

  type Conn = nat
  type Thread = nat

  datatype Options = Options(
    limit: nat, maxIdle: nat, queueLimit: nat, waits: bool, timed: bool, resetOnRelease: bool)
  {
    /** What the constructor of the pool establishes. */
    predicate Valid() {
      limit >= 1 && maxIdle <= limit
    }
  }

  /** The members of the pool, the connections that handles own (`held`), those in
      `release` but not yet under the mutex (`releasing`), and the threads in the
      wait section: blocked on the condition variable, or woken but not yet
      running again. */
  datatype State = State(
    connections: seq<Conn>, idle: seq<Conn>, waiting: nat, closed: bool,
    held: set<Conn>, releasing: set<Conn>, blocked: set<Thread>, woken: set<Thread>)

  const EMPTY := State([], [], 0, false, {}, {}, {}, {})

  datatype Event =
    /** `acquire` up to its return or its first wait; `made` is the new connection
        if one is asked for and connecting succeeds. */
    | Acquire(thread: Thread, made: Option<Conn>)
    /** A blocked thread wakes up without a notification. */
    | Spurious(thread: Thread)
    /** A woken thread runs again, perhaps past its deadline. */
    | Resume(thread: Thread, timedOut: bool)
    | BeginRelease(conn: Conn)
    /** The locked part of `release`; `notify_one` picks any blocked thread. */
    | EndRelease(conn: Conn, resetOk: bool, notified: Option<Thread>)
    | EndPool

  function Erase(list: seq<Conn>, c: Conn): seq<Conn> {
    Without(list, c)
  }

  function Known(s: State): set<Conn> {
    Elements(s.connections) + Elements(s.idle) + s.held + s.releasing
  }

  function Front(list: seq<Conn>): seq<Conn>
    requires list != []
  {
    list[..|list| - 1]
  }

  function Last(list: seq<Conn>): Conn
    requires list != []
  {
    list[|list| - 1]
  }

  /** Whether an event can happen in a state at all. */
  predicate Enabled(o: Options, s: State, e: Event) {
    match e
    case Acquire(t, made) => t !in s.blocked + s.woken && (made.Some? ==> made.value !in Known(s))
    case Spurious(t) => t in s.blocked
    case Resume(t, timedOut) => t in s.woken && (timedOut ==> o.timed)
    case BeginRelease(c) => c in s.held
    case EndRelease(c, resetOk, notified) =>
      && c in s.releasing
      && (!resetOk ==> o.resetOnRelease)
      && (if s.blocked == {} then notified.None? else notified.Some? && notified.value in s.blocked)
    case EndPool => true
  }

  /** The connection at the back of the idle list is handed out. */
  function HandOut(s: State): State
    requires s.idle != []
  {
    s.(idle := Front(s.idle), held := s.held + {Last(s.idle)})
  }

  function Leave(s: State, t: Thread): State {
    s.(waiting := if s.waiting == 0 then 0 else s.waiting - 1, woken := s.woken - {t})
  }

  function Notify(s: State, notified: Option<Thread>): State {
    match notified
    case None => s
    case Some(t) => s.(blocked := s.blocked - {t}, woken := s.woken + {t})
  }

  function Next(o: Options, s: State, e: Event): State {
    match e
    case Acquire(t, made) =>
      if s.closed then s
      else if s.idle != [] then HandOut(s)
      else if |s.connections| < o.limit then
        if made.None? then s
        else s.(connections := s.connections + [made.value], held := s.held + {made.value})
      else if !o.waits || (o.queueLimit != 0 && s.waiting >= o.queueLimit) then s
      else s.(waiting := s.waiting + 1, blocked := s.blocked + {t})
    case Spurious(t) => Notify(s, Some(t))
    case Resume(t, timedOut) =>
      if timedOut || s.closed then Leave(s, t)
      else if s.idle != [] then HandOut(Leave(s, t))
      else s.(woken := s.woken - {t}, blocked := s.blocked + {t})
    case BeginRelease(c) => s.(held := s.held - {c}, releasing := s.releasing + {c})
    case EndRelease(c, resetOk, notified) =>
      var s' := s.(releasing := s.releasing - {c});
      if !resetOk then Notify(s'.(connections := Erase(s.connections, c), idle := Erase(s.idle, c)), notified)
      else if s.closed then s'
      else if |s.idle| >= o.maxIdle then
        Notify(s'.(connections := Erase(s.connections, c), idle := Erase(s.idle, c)), notified)
      else Notify(s'.(idle := s.idle + [c]), notified)
    case EndPool =>
      if s.closed && s.connections == [] then s
      else s.(closed := true, idle := [], connections := [], blocked := {}, woken := s.woken + s.blocked)
  }

  /** A run of the pool, if every event of it can happen. */
  function Exec(o: Options, s: State, run: seq<Event>): Option<State>
    decreases |run|
  {
    if run == [] then Some(s)
    else if !Enabled(o, s, run[0]) then None
    else Exec(o, Next(o, s, run[0]), run[1..])
  }

  lemma {:induction false} ExecSnoc(o: Options, s: State, run: seq<Event>, e: Event)
    ensures Exec(o, s, run + [e]) ==
      match Exec(o, s, run)
      case None => None
      case Some(t) => if Enabled(o, t, e) then Some(Next(o, t, e)) else None
    decreases |run|
  {
    hide Next, Enabled;
    if run == [] {
      assert [e][1..] == [];
    } else if Enabled(o, s, run[0]) {
      assert (run + [e])[1..] == run[1..] + [e];
      ExecSnoc(o, Next(o, s, run[0]), run[1..], e);
    }
  }

  // ---------------------------------------------------------- accounting

  /** Every connection of an open pool is in exactly one place. */
  ghost predicate Accounted(o: Options, s: State) {
    && NoDuplicates(s.connections) && NoDuplicates(s.idle)
    && s.held !! s.releasing
    && |s.connections| <= o.limit && |s.idle| <= o.maxIdle
    && (if s.closed then s.connections == [] && s.idle == []
        else
          && Elements(s.connections) == s.held + s.releasing + Elements(s.idle)
          && Elements(s.idle) !! s.held + s.releasing)
  }

  /** The waiting counter counts the threads in the wait section. */
  ghost predicate Counted(o: Options, s: State) {
    && s.blocked !! s.woken
    && s.waiting == |s.blocked| + |s.woken|
    && (o.queueLimit != 0 ==> s.waiting <= o.queueLimit)
    && (s.closed ==> s.blocked == {})
  }

  /** No lost wakeup: while a thread sleeps, every idle connection has a woken
      thread that is on its way to it. */
  ghost predicate NoLostWakeup(s: State) {
    s.blocked != {} ==> |s.idle| <= |s.woken|
  }

  lemma PopIdle(idle: seq<Conn>)
    requires idle != [] && NoDuplicates(idle)
    ensures NoDuplicates(Front(idle)) && Elements(Front(idle)) == Elements(idle) - {Last(idle)}
    ensures Last(idle) in Elements(idle)
  {
    assert Last(idle) !in Front(idle);
    assert idle == Front(idle) + [Last(idle)];
    ElementsSnoc(Front(idle), Last(idle));
  }

  lemma PushConn(list: seq<Conn>, c: Conn)
    requires NoDuplicates(list) && c !in Elements(list)
    ensures NoDuplicates(list + [c]) && Elements(list + [c]) == Elements(list) + {c}
  {
    ElementsSnoc(list, c);
  }

  lemma EraseConn(list: seq<Conn>, c: Conn)
    requires NoDuplicates(list)
    ensures NoDuplicates(Erase(list, c)) && Elements(Erase(list, c)) == Elements(list) - {c}
    ensures |Erase(list, c)| <= |list|
  {
    WithoutFacts(list, c);
  }

  lemma AccountedStep(o: Options, s: State, e: Event)
    requires o.Valid() && Accounted(o, s) && Enabled(o, s, e)
    ensures Accounted(o, Next(o, s, e))
  {
    hide NoDuplicates, Elements, Without;
    match e
    case Acquire(t, made) =>
      if s.closed {
      } else if s.idle != [] {
        PopIdle(s.idle);
      } else if |s.connections| < o.limit && made.Some? {
        PushConn(s.connections, made.value);
      }
    case Spurious(_) =>
    case Resume(t, timedOut) =>
      if !timedOut && !s.closed && s.idle != [] {
        PopIdle(s.idle);
      }
    case BeginRelease(_) =>
    case EndRelease(c, _, _) =>
      EraseConn(s.connections, c);
      EraseConn(s.idle, c);
      if !s.closed {
        PushConn(s.idle, c);
      }
    case EndPool => NothingLeft();
  }

  lemma NothingLeft()
    ensures NoDuplicates<Conn>([]) && Elements<Conn>([]) == {}
  {
  }

  lemma Moved(a: set<Thread>, b: set<Thread>, t: Thread)
    requires t in a && a !! b
    ensures |a - {t}| == |a| - 1 && |b + {t}| == |b| + 1
    ensures |a - {t}| + |b + {t}| == |a| + |b| && a - {t} !! b + {t}
  {
  }

  lemma Joined(a: set<Thread>, b: set<Thread>)
    requires a !! b
    ensures |a + b| == |a| + |b|
  {
  }

  lemma SomeoneWaits(o: Options, s: State, t: Thread)
    requires Counted(o, s) && t in s.woken
    ensures s.waiting >= 1 && t !in s.blocked
  {
    assert s.woken == (s.woken - {t}) + {t};
  }

  lemma CountedStep(o: Options, s: State, e: Event)
    requires Counted(o, s) && Enabled(o, s, e)
    ensures Counted(o, Next(o, s, e))
  {
    hide Without, Elements, Counted;
    match e
    case Acquire(t, _) => CountedAcquire(o, s, e);
    case Spurious(t) => CountedNotify(o, s, s, Some(t));
    case Resume(t, _) => CountedResume(o, s, e);
    case BeginRelease(_) => CountedNotify(o, s, Next(o, s, e), None);
    case EndRelease(c, _, notified) => CountedRelease(o, s, e);
    case EndPool => CountedEnd(o, s);
  }

  lemma CountedAcquire(o: Options, s: State, e: Event)
    requires e.Acquire? && Counted(o, s) && Enabled(o, s, e)
    ensures Counted(o, Next(o, s, e))
  {
    hide Elements;
  }

  lemma CountedResume(o: Options, s: State, e: Event)
    requires e.Resume? && Counted(o, s) && Enabled(o, s, e)
    ensures Counted(o, Next(o, s, e))
  {
    hide Elements;
    SomeoneWaits(o, s, e.thread);
    Moved(s.woken, s.blocked, e.thread);
  }

  /** A notification, and changes that leave the wait section alone. */
  lemma CountedNotify(o: Options, s: State, s': State, notified: Option<Thread>)
    requires Counted(o, s) && (notified.Some? ==> notified.value in s.blocked)
    requires s'.waiting == s.waiting && s'.blocked == s.blocked && s'.woken == s.woken && s'.closed == s.closed
    ensures Counted(o, Notify(s', notified)) && Counted(o, s')
  {
    if notified.Some? {
      Moved(s.blocked, s.woken, notified.value);
    }
  }

  lemma CountedRelease(o: Options, s: State, e: Event)
    requires e.EndRelease? && Counted(o, s) && Enabled(o, s, e)
    ensures Counted(o, Next(o, s, e))
  {
    hide Without, Elements, Counted;
    var c := e.conn;
    var gone := s.(releasing := s.releasing - {c});
    CountedNotify(o, s, gone, None);
    CountedNotify(o, s, gone.(connections := Erase(s.connections, c), idle := Erase(s.idle, c)), e.notified);
    CountedNotify(o, s, gone.(idle := s.idle + [c]), e.notified);
  }

  lemma CountedEnd(o: Options, s: State)
    requires Counted(o, s)
    ensures Counted(o, Next(o, s, EndPool))
  {
    Joined(s.woken, s.blocked);
  }

  lemma NoLostWakeupStep(o: Options, s: State, e: Event)
    requires !o.timed && Accounted(o, s) && Counted(o, s) && NoLostWakeup(s) && Enabled(o, s, e)
    ensures NoLostWakeup(Next(o, s, e))
  {
    hide Accounted, Counted, Elements, Without;
    match e
    case Acquire(t, _) =>
    case Spurious(t) => NoLostSpurious(o, s, t);
    case Resume(t, _) => NoLostResume(o, s, e);
    case BeginRelease(_) =>
    case EndRelease(c, _, notified) => NoLostRelease(o, s, e);
    case EndPool =>
  }

  lemma NoLostSpurious(o: Options, s: State, t: Thread)
    requires Counted(o, s) && NoLostWakeup(s) && t in s.blocked
    ensures NoLostWakeup(Notify(s, Some(t)))
  {
    Moved(s.blocked, s.woken, t);
  }

  lemma NoLostResume(o: Options, s: State, e: Event)
    requires e.Resume? && !o.timed && Counted(o, s) && NoLostWakeup(s) && Enabled(o, s, e)
    ensures NoLostWakeup(Next(o, s, e))
  {
    hide Elements;
    Moved(s.woken, s.blocked, e.thread);
  }

  lemma NoLostRelease(o: Options, s: State, e: Event)
    requires e.EndRelease? && Accounted(o, s) && Counted(o, s) && NoLostWakeup(s) && Enabled(o, s, e)
    ensures NoLostWakeup(Next(o, s, e))
  {
    hide NoDuplicates, Elements, Without;
    EraseConn(s.idle, e.conn);
    if e.notified.Some? {
      Moved(s.blocked, s.woken, e.notified.value);
    }
  }

  lemma {:induction false} Invariant(o: Options, s: State, run: seq<Event>)
    requires o.Valid() && Accounted(o, s) && Counted(o, s) && Exec(o, s, run).Some?
    ensures Accounted(o, Exec(o, s, run).value) && Counted(o, Exec(o, s, run).value)
    ensures !o.timed && NoLostWakeup(s) ==> NoLostWakeup(Exec(o, s, run).value)
    decreases |run|
  {
    hide Accounted, Counted, NoLostWakeup, Next, Enabled;
    if run != [] {
      AccountedStep(o, s, run[0]);
      CountedStep(o, s, run[0]);
      if !o.timed && NoLostWakeup(s) {
        NoLostWakeupStep(o, s, run[0]);
      }
      Invariant(o, Next(o, s, run[0]), run[1..]);
    }
  }

  /** Pool accounting, over every interleaving. */
  lemma AccountingOverRuns(o: Options, run: seq<Event>)
    requires o.Valid() && Exec(o, EMPTY, run).Some?
    ensures Accounted(o, Exec(o, EMPTY, run).value) && Counted(o, Exec(o, EMPTY, run).value)
  {
    Invariant(o, EMPTY, run);
  }

  /** No lost wakeup over every interleaving of a pool without deadlines. */
  lemma NoLostWakeupOverRuns(o: Options, run: seq<Event>)
    requires o.Valid() && !o.timed && Exec(o, EMPTY, run).Some?
    ensures NoLostWakeup(Exec(o, EMPTY, run).value)
  {
    Invariant(o, EMPTY, run);
  }

  /** A closed pool stays closed and empty. */
  lemma {:induction false} ClosedForGood(o: Options, s: State, run: seq<Event>)
    requires o.Valid() && Accounted(o, s) && s.closed && Exec(o, s, run).Some?
    ensures var t := Exec(o, s, run).value; t.closed && t.connections == [] && t.idle == []
    decreases |run|
  {
    if run != [] {
      AccountedStep(o, s, run[0]);
      assert Next(o, s, run[0]).closed;
      hide Next, Accounted, Enabled;
      ClosedForGood(o, Next(o, s, run[0]), run[1..]);
    }
  }

  // ------------------------------------------------------------- deadlock

  /** Threads sleep in an open pool, and nobody holds or is giving back a
      connection or is about to run: only a new caller could change anything. */
  ghost predicate Deadlocked(s: State) {
    !s.closed && s.blocked != {} && s.woken == {} && s.held == {} && s.releasing == {}
  }

  ghost predicate CanDeadlock(o: Options) {
    exists run :: Exec(o, EMPTY, run).Some? && Deadlocked(Exec(o, EMPTY, run).value)
  }

  /** While threads wait there are connections to wait for. */
  ghost predicate WorthWaiting(s: State) {
    !s.closed && s.blocked + s.woken != {} ==> s.connections != []
  }

  lemma WorthWaitingStep(o: Options, s: State, e: Event)
    requires o.Valid() && o.maxIdle >= 1 && !o.resetOnRelease
    requires Accounted(o, s) && WorthWaiting(s) && Enabled(o, s, e)
    ensures WorthWaiting(Next(o, s, e))
  {
    AccountedStep(o, s, e);
    hide NoDuplicates, Without;
    if e.EndRelease? && !s.closed && |s.idle| >= o.maxIdle {
      assert s.idle[0] in Elements(s.idle);
      EraseConn(s.connections, e.conn);
      assert s.idle[0] in Elements(Erase(s.connections, e.conn));
    }
  }

  lemma {:induction false} WorthWaitingOverRuns(o: Options, s: State, run: seq<Event>)
    requires o.Valid() && o.maxIdle >= 1 && !o.resetOnRelease
    requires Accounted(o, s) && WorthWaiting(s) && Exec(o, s, run).Some?
    ensures WorthWaiting(Exec(o, s, run).value)
    decreases |run|
  {
    hide Accounted, WorthWaiting, Next, Enabled;
    if run != [] {
      AccountedStep(o, s, run[0]);
      WorthWaitingStep(o, s, run[0]);
      WorthWaitingOverRuns(o, Next(o, s, run[0]), run[1..]);
    }
  }

  lemma NeverDeadlocks(o: Options, run: seq<Event>)
    requires o.Valid() && !o.timed && o.maxIdle >= 1 && !o.resetOnRelease
    requires Exec(o, EMPTY, run).Some?
    ensures !Deadlocked(Exec(o, EMPTY, run).value)
  {
    Invariant(o, EMPTY, run);
    WorthWaitingOverRuns(o, EMPTY, run);
    hide Exec;
    NotDeadlocked(o, Exec(o, EMPTY, run).value);
  }

  lemma NotDeadlocked(o: Options, s: State)
    requires Accounted(o, s) && NoLostWakeup(s) && WorthWaiting(s)
    ensures !Deadlocked(s)
  {
    if !s.closed && s.blocked != {} && s.woken == {} {
      assert s.idle == [] && s.connections != [];
      assert s.connections[0] in Elements(s.connections);
    }
  }

  // Connections 0 to n - 1, all of them held, and thread 0 perhaps asleep.

  function Range(n: nat): (s: seq<Conn>)
    ensures |s| == n && forall i :: 0 <= i < n ==> s[i] == i
  {
    seq(n, i => i)
  }

  function AllHeld(n: nat, asleep: bool): State {
    State(Range(n), [], if asleep then 1 else 0, false, Elements(Range(n)), {}, if asleep then {0} else {}, {})
  }

  lemma {:induction false} Fill(o: Options, n: nat) returns (run: seq<Event>)
    requires n <= o.limit
    ensures Exec(o, EMPTY, run) == Some(AllHeld(n, false))
  {
    run := [];
    NothingLeft();
    assert Range(0) == [];
    for k := 0 to n
      invariant Exec(o, EMPTY, run) == Some(AllHeld(k, false))
    {
      var e := Acquire(0, Some(k));
      ExecSnoc(o, EMPTY, run, e);
      FillStep(o, k);
      run := run + [e];
    }
  }

  lemma FillStep(o: Options, k: nat)
    requires k < o.limit
    ensures Enabled(o, AllHeld(k, false), Acquire(0, Some(k)))
    ensures Next(o, AllHeld(k, false), Acquire(0, Some(k))) == AllHeld(k + 1, false)
  {
    assert Range(k) + [k] == Range(k + 1);
    ElementsSnoc(Range(k), k);
  }

  /** The sleeper's connections are given back and thrown away one by one; each
      time it is woken, finds nothing idle, and goes to sleep again, although the
      pool now has room for a new connection. */
  lemma {:induction false} Drain(o: Options, run0: seq<Event>, n: nat, resetOk: bool) returns (run: seq<Event>)
    requires Exec(o, EMPTY, run0) == Some(AllHeld(n, true))
    requires if resetOk then o.maxIdle == 0 else o.resetOnRelease
    ensures Exec(o, EMPTY, run) == Some(AllHeld(0, true))
  {
    run := run0;
    var k := n;
    while k > 0
      invariant Exec(o, EMPTY, run) == Some(AllHeld(k, true))
    {
      k := k - 1;
      var e1, e2, e3 := BeginRelease(k), EndRelease(k, resetOk, Some(0)), Resume(0, false);
      ExecSnoc(o, EMPTY, run, e1);
      ExecSnoc(o, EMPTY, run + [e1], e2);
      ExecSnoc(o, EMPTY, run + [e1] + [e2], e3);
      DrainStep(o, k, resetOk);
      run := run + [e1] + [e2] + [e3];
    }
  }

  lemma DrainStep(o: Options, k: nat, resetOk: bool)
    requires if resetOk then o.maxIdle == 0 else o.resetOnRelease
    ensures var e1, e2, e3 := BeginRelease(k), EndRelease(k, resetOk, Some(0)), Resume(0, false);
      var held := Elements(Range(k));
      var s1 := State(Range(k + 1), [], 1, false, held, {k}, {0}, {});
      var s2 := State(Range(k), [], 1, false, held, {}, {}, {0});
      && Enabled(o, AllHeld(k + 1, true), e1) && Next(o, AllHeld(k + 1, true), e1) == s1
      && Enabled(o, s1, e2) && Next(o, s1, e2) == s2
      && Enabled(o, s2, e3) && Next(o, s2, e3) == AllHeld(k, true)
  {
    WithoutAt(Range(k + 1), k);
    assert Range(k + 1)[..k] + Range(k + 1)[k + 1..] == Range(k);
    assert Range(k) + [k] == Range(k + 1);
    ElementsSnoc(Range(k), k);
    assert k !in Range(k);
    hide Without, Elements;
    assert (Elements(Range(k)) + {k}) - {k} == Elements(Range(k));
  }

  /** A pool without deadlines can run into a deadlock exactly when it keeps no
      idle connections or resets connections on release: then a release can free
      room in the pool, and a waiting thread looks for an idle connection only. */
  lemma DeadlockExact(o: Options)
    requires o.Valid() && !o.timed && o.waits
    ensures CanDeadlock(o) <==> o.maxIdle == 0 || o.resetOnRelease
  {
    if o.maxIdle == 0 || o.resetOnRelease {
      var run := Fill(o, o.limit);
      ExecSnoc(o, EMPTY, run, Acquire(0, None));
      assert Next(o, AllHeld(o.limit, false), Acquire(0, None)) == AllHeld(o.limit, true);
      var all := Drain(o, run + [Acquire(0, None)], o.limit, o.maxIdle == 0);
      assert Deadlocked(AllHeld(0, true));
    } else {
      forall run | Exec(o, EMPTY, run).Some? ensures !Deadlocked(Exec(o, EMPTY, run).value) {
        NeverDeadlocks(o, run);
      }
    }
  }

  // ------------------------------------------------------- when wakeups are lost

  ghost predicate CanLoseWakeup(o: Options) {
    exists run :: Exec(o, EMPTY, run).Some? && !NoLostWakeup(Exec(o, EMPTY, run).value)
  }

  /** What a pool that cannot lose a wakeup keeps even with deadlines: it lets nobody
      wait, or it keeps nothing idle, or a lone waiter sleeps beside nothing idle. */
  ghost predicate Unlosable(o: Options, s: State) {
    && (!o.waits ==> s.blocked == {})
    && (o.queueLimit == 1 && s.blocked != {} ==> s.idle == [])
  }

  lemma LoneWaiter(o: Options, s: State, t: Thread)
    requires o.queueLimit == 1 && Counted(o, s) && t in s.blocked
    ensures s.blocked == {t}
  {
    if u :| u in s.blocked && u != t {
      assert |{t, u}| == 2 && {t, u} <= s.blocked;
      FewerInside({t, u}, s.blocked);
    }
  }

  lemma FewerInside(a: set<Thread>, b: set<Thread>)
    requires a <= b
    ensures |a| <= |b|
  {
    Joined(a, b - a);
    assert a + (b - a) == b;
  }

  lemma UnlosableStep(o: Options, s: State, e: Event)
    requires Counted(o, s) && Unlosable(o, s) && Enabled(o, s, e)
    requires !o.waits ==> s.woken == {}
    ensures Unlosable(o, Next(o, s, e)) && (!o.waits ==> Next(o, s, e).woken == {})
  {
    hide Without, Counted;
    if o.queueLimit == 1 {
      if e.EndRelease? && e.notified.Some? {
        LoneWaiter(o, s, e.notified.value);
      } else if e.Spurious? {
        LoneWaiter(o, s, e.thread);
      }
    }
  }

  lemma {:induction false} UnlosableOverRuns(o: Options, s: State, run: seq<Event>)
    requires Counted(o, s) && Unlosable(o, s) && (!o.waits ==> s.woken == {}) && Exec(o, s, run).Some?
    ensures Unlosable(o, Exec(o, s, run).value)
    decreases |run|
  {
    hide Counted, Unlosable, Next, Enabled;
    if run != [] {
      CountedStep(o, s, run[0]);
      UnlosableStep(o, s, run[0]);
      UnlosableOverRuns(o, Next(o, s, run[0]), run[1..]);
    }
  }

  lemma KeepsWakeups(o: Options, run: seq<Event>)
    requires o.Valid() && Exec(o, EMPTY, run).Some?
    requires !o.waits || !o.timed || o.maxIdle == 0 || o.queueLimit == 1
    ensures NoLostWakeup(Exec(o, EMPTY, run).value)
  {
    Invariant(o, EMPTY, run);
    UnlosableOverRuns(o, EMPTY, run);
  }

  /** All connections held and two threads asleep; a connection comes back and the
      thread that is notified is past its deadline. */
  lemma {:induction false} LosingRun(o: Options) returns (run: seq<Event>)
    requires o.Valid() && o.waits && o.timed && o.maxIdle >= 1 && o.queueLimit != 1
    ensures Exec(o, EMPTY, run).Some? && !NoLostWakeup(Exec(o, EMPTY, run).value)
  {
    hide Exec;
    run := Fill(o, o.limit);
    var full := AllHeld(o.limit, false);
    var s1 := full.(waiting := 1, blocked := {1});
    var s2 := full.(waiting := 2, blocked := {1, 2});
    var s3 := s2.(held := s2.held - {0}, releasing := {0});
    var s4 := s3.(releasing := {}, idle := [0], blocked := {2}, woken := {1});
    var s5 := s4.(waiting := 1, woken := {});
    assert 0 in Range(o.limit) by { assert Range(o.limit)[0] == 0; }
    assert s2.blocked - {1} == {2};
    run := Extend(o, run, full, Acquire(1, None), s1);
    run := Extend(o, run, s1, Acquire(2, None), s2);
    run := Extend(o, run, s2, BeginRelease(0), s3);
    run := Extend(o, run, s3, EndRelease(0, true, Some(1)), s4);
    run := Extend(o, run, s4, Resume(1, true), s5);
    assert 2 in s5.blocked;
  }

  /** One more event of a run. */
  lemma Extend(o: Options, run0: seq<Event>, s: State, e: Event, s': State) returns (run: seq<Event>)
    requires Exec(o, EMPTY, run0) == Some(s) && Enabled(o, s, e) && Next(o, s, e) == s'
    ensures Exec(o, EMPTY, run) == Some(s')
  {
    ExecSnoc(o, EMPTY, run0, e);
    run := run0 + [e];
  }

  /** A pool can let a thread sleep beside an idle connection exactly when threads
      wait with a deadline, something is kept idle, and two threads may wait: then a
      notification can go to a thread that is about to give up. */
  lemma LostWakeupExact(o: Options)
    requires o.Valid()
    ensures CanLoseWakeup(o) <==> o.waits && o.timed && o.maxIdle >= 1 && o.queueLimit != 1
  {
    if o.waits && o.timed && o.maxIdle >= 1 && o.queueLimit != 1 {
      var run := LosingRun(o);
    } else {
      forall run | Exec(o, EMPTY, run).Some? ensures NoLostWakeup(Exec(o, EMPTY, run).value) {
        KeepsWakeups(o, run);
      }
    }
  }

  // ------------------------------------------------- sleeping beside spare capacity

  /** A thread sleeps in an open pool that has room for another connection, and
      nothing is under way that would wake it. */
  ghost predicate SleepsBesideRoom(o: Options, s: State) {
    !s.closed && s.blocked != {} && s.woken == {} && s.releasing == {} && |s.connections| < o.limit
  }

  ghost predicate CanSleepBesideRoom(o: Options) {
    exists run :: Exec(o, EMPTY, run).Some? && SleepsBesideRoom(o, Exec(o, EMPTY, run).value)
  }

  /** Whoever waits found the pool full, and it stays full. */
  ghost predicate FullWhileWaited(o: Options, s: State) {
    && (!s.closed && s.blocked + s.woken != {} ==> |s.connections| >= o.limit)
    && (!o.waits ==> s.blocked + s.woken == {})
  }

  /** With room for every connection among the idle ones, a release never finds the
      idle list full. */
  lemma IdleHasRoom(o: Options, s: State, c: Conn)
    requires o.maxIdle == o.limit && Accounted(o, s) && !s.closed && c in s.releasing
    ensures |s.idle| < o.maxIdle
  {
    Cardinality(s.idle);
    Cardinality(s.connections);
    hide NoDuplicates;
    var inside := Elements(s.idle) + {c};
    assert inside <= Elements(s.connections);
    FewerInside(inside, Elements(s.connections));
  }

  lemma FullWhileWaitedStep(o: Options, s: State, e: Event)
    requires o.waits ==> o.maxIdle == o.limit && !o.resetOnRelease
    requires Accounted(o, s) && FullWhileWaited(o, s) && Enabled(o, s, e)
    ensures FullWhileWaited(o, Next(o, s, e))
  {
    if e.EndRelease? && !s.closed && o.waits {
      IdleHasRoom(o, s, e.conn);
    }
    hide Accounted, Without;
  }

  lemma {:induction false} FullWhileWaitedOverRuns(o: Options, s: State, run: seq<Event>)
    requires o.Valid() && (o.waits ==> o.maxIdle == o.limit && !o.resetOnRelease)
    requires Accounted(o, s) && FullWhileWaited(o, s) && Exec(o, s, run).Some?
    ensures FullWhileWaited(o, Exec(o, s, run).value)
    decreases |run|
  {
    hide Accounted, FullWhileWaited, Next, Enabled;
    if run != [] {
      AccountedStep(o, s, run[0]);
      FullWhileWaitedStep(o, s, run[0]);
      FullWhileWaitedOverRuns(o, Next(o, s, run[0]), run[1..]);
    }
  }

  // Connections 0 to n - 1, of which those below k are idle and the others held,
  // and thread 0 in the wait section.

  function Span(k: nat, n: nat): set<Conn>
    decreases n
  {
    if n <= k then {} else Span(k, n - 1) + {n - 1}
  }

  lemma {:induction false} InSpan(k: nat, n: nat)
    ensures forall c :: c in Span(k, n) <==> k <= c < n
    decreases n
  {
    if n > k {
      InSpan(k, n - 1);
    }
  }

  function Partly(n: nat, k: nat, asleep: bool): State {
    State(Range(n), Range(k), 1, false, Span(k, n), {}, if asleep then {0} else {}, if asleep then {} else {0})
  }

  lemma PartlyHeld(n: nat)
    ensures AllHeld(n, true) == Partly(n, 0, true)
  {
    InSpan(0, n);
    assert Elements(Range(n)) == Span(0, n) by {
      forall c: Conn ensures c in Range(n) <==> c in Span(0, n) {
        if c < n {
          assert Range(n)[c] == c;
        }
      }
    }
    assert Range(0) == [];
  }

  lemma Spans(k: nat, n: nat)
    requires k < n
    ensures Span(k, n) == Span(k + 1, n) + {k} && k !in Span(k + 1, n)
    ensures Span(k, n) == Span(k, n - 1) + {n - 1} && n - 1 !in Span(k, n - 1)
    ensures Range(k) + [k] == Range(k + 1) && Range(n - 1) + [n - 1] == Range(n)
  {
    InSpan(k, n);
    InSpan(k + 1, n);
    InSpan(k, n - 1);
  }

  /** The connection numbered `k` is given back to the idle list. */
  lemma {:induction false} GiveBack(o: Options, run0: seq<Event>, n: nat, k: nat) returns (run: seq<Event>)
    requires k < n && k < o.maxIdle && Exec(o, EMPTY, run0) == Some(Partly(n, k, k == 0))
    ensures Exec(o, EMPTY, run) == Some(Partly(n, k + 1, false))
  {
    hide Exec, Without;
    Spans(k, n);
    var s := Partly(n, k, k == 0);
    var between := s.(held := Span(k + 1, n), releasing := {k});
    assert s.held - {k} == Span(k + 1, n);
    run := Extend(o, run0, s, BeginRelease(k), between);
    var notified := if k == 0 then Some(0) else None;
    assert between.releasing - {k} == {};
    assert k == 0 ==> between.blocked - {0} == {};
    run := Extend(o, run, between, EndRelease(k, true, notified), Partly(n, k + 1, false));
  }

  lemma LastErased(k: nat, n: nat)
    requires k < n
    ensures Erase(Range(n), n - 1) == Range(n - 1) && Erase(Range(k), n - 1) == Range(k)
  {
    WithoutAt(Range(n), n - 1);
    assert Range(n)[..n - 1] + Range(n)[n..] == Range(n - 1);
    assert n - 1 !in Range(k);
  }

  lemma ThrowAwaySteps(o: Options, n: nat, k: nat, resetOk: bool)
    requires k < n && (if resetOk then k >= o.maxIdle else o.resetOnRelease)
    ensures var s, c := Partly(n, k, k == 0), n - 1;
            var between := s.(held := Span(k, n - 1), releasing := {c});
            var e := EndRelease(c, resetOk, if k == 0 then Some(0) else None);
            && Enabled(o, s, BeginRelease(c)) && Next(o, s, BeginRelease(c)) == between
            && Enabled(o, between, e) && Next(o, between, e) == Partly(n - 1, k, false)
  {
    Spans(k, n);
    LastErased(k, n);
    hide Span, Range, Erase;
    var s, c := Partly(n, k, k == 0), n - 1;
    assert s.held - {c} == Span(k, n - 1);
    assert {c} - {c} == {};
    assert k == 0 ==> s.blocked - {0} == {};
  }

  /** The last connection is given back and thrown away. */
  lemma {:induction false} ThrowAway(o: Options, run0: seq<Event>, n: nat, k: nat, resetOk: bool) returns (run: seq<Event>)
    requires k < n && (if resetOk then k >= o.maxIdle else o.resetOnRelease)
    requires Exec(o, EMPTY, run0) == Some(Partly(n, k, k == 0))
    ensures Exec(o, EMPTY, run) == Some(Partly(n - 1, k, false))
  {
    ThrowAwaySteps(o, n, k, resetOk);
    hide Exec, Enabled, Next, Partly;
    var s, c := Partly(n, k, k == 0), n - 1;
    var between := s.(held := Span(k, n - 1), releasing := {c});
    run := Extend(o, run0, s, BeginRelease(c), between);
    run := Extend(o, run, between, EndRelease(c, resetOk, if k == 0 then Some(0) else None), Partly(n - 1, k, false));
  }

  /** Another thread takes an idle connection before the woken one runs. */
  lemma {:induction false} Overtake(o: Options, run0: seq<Event>, n: nat, k: nat) returns (run: seq<Event>)
    requires 0 < k <= n && Exec(o, EMPTY, run0) == Some(Partly(n, k, false))
    ensures Exec(o, EMPTY, run) == Some(Partly(n, k - 1, false))
  {
    hide Exec;
    Spans(k - 1, n);
    var s := Partly(n, k, false);
    assert Front(s.idle) == Range(k - 1) && Last(s.idle) == k - 1;
    assert s.held + {k - 1} == Span(k - 1, n);
    run := Extend(o, run0, s, Acquire(1, None), Partly(n, k - 1, false));
  }

  /** The idle list fills up, the next release makes room in the pool, others take
      the idle connections, and the woken thread goes to sleep again. */
  lemma {:induction false} SleepingRun(o: Options) returns (run: seq<Event>)
    requires o.Valid() && o.waits && (o.maxIdle < o.limit || o.resetOnRelease)
    ensures Exec(o, EMPTY, run).Some? && SleepsBesideRoom(o, Exec(o, EMPTY, run).value)
  {
    hide Exec, Partly;
    run := Fill(o, o.limit);
    run := Extend(o, run, AllHeld(o.limit, false), Acquire(0, None), AllHeld(o.limit, true));
    PartlyHeld(o.limit);
    var idle := if o.resetOnRelease then 0 else o.maxIdle;
    for k := 0 to idle
      invariant Exec(o, EMPTY, run) == Some(Partly(o.limit, k, k == 0))
    {
      run := GiveBack(o, run, o.limit, k);
    }
    run := ThrowAway(o, run, o.limit, idle, !o.resetOnRelease);
    var n: nat, k: nat := o.limit - 1, idle;
    while k > 0
      invariant k <= idle && Exec(o, EMPTY, run) == Some(Partly(n, k, false))
    {
      run := Overtake(o, run, n, k);
      k := k - 1;
    }
    FallsAsleep(o, n);
    run := Extend(o, run, Partly(n, 0, false), Resume(0, false), Partly(n, 0, true));
  }

  lemma FallsAsleep(o: Options, n: nat)
    requires n < o.limit
    ensures Enabled(o, Partly(n, 0, false), Resume(0, false))
    ensures Next(o, Partly(n, 0, false), Resume(0, false)) == Partly(n, 0, true)
    ensures SleepsBesideRoom(o, Partly(n, 0, true))
  {
    assert Range(0) == [];
    assert 0 in Partly(n, 0, true).blocked;
  }

  /** A thread can be left asleep beside spare capacity exactly when threads wait at
      all and a release can throw a connection away: a waiting thread looks for an
      idle connection only, never for room to make one. */
  lemma SleepsBesideRoomExact(o: Options)
    requires o.Valid()
    ensures CanSleepBesideRoom(o) <==> o.waits && (o.maxIdle < o.limit || o.resetOnRelease)
  {
    if o.waits && (o.maxIdle < o.limit || o.resetOnRelease) {
      var run := SleepingRun(o);
    } else {
      forall run | Exec(o, EMPTY, run).Some? ensures !SleepsBesideRoom(o, Exec(o, EMPTY, run).value) {
        FullWhileWaitedOverRuns(o, EMPTY, run);
        hide Exec;
      }
    }
  }

  // ----------------------------------------------------------- the class

  datatype Outcome = Got(conn: Conn) | Threw | Waits

  /** `PoolImpl`: every method is one stretch under the mutex. The ghost fields
      follow the handles and the threads in the wait section. */
  class PoolImpl {
    const options: Options
    var connections: seq<Conn>
    var idle: seq<Conn>
    var waitingCount: nat
    var closed: bool
    ghost var held: set<Conn>
    ghost var releasing: set<Conn>
    ghost var blocked: set<Thread>
    ghost var woken: set<Thread>

    ghost function Abstract(): State
      reads this
    {
      State(connections, idle, waitingCount, closed, held, releasing, blocked, woken)
    }

    ghost predicate Valid()
      reads this
    {
      options.Valid() && Accounted(options, Abstract()) && Counted(options, Abstract())
    }

    /** The constructor refuses a limit of zero and cuts `max_idle` down to it. */
    static method Create(options: Options) returns (pool: PoolImpl?)
      ensures pool == null <==> options.limit == 0
      ensures pool != null ==> fresh(pool) && pool.Valid() && pool.Abstract() == EMPTY
      ensures pool != null ==> pool.options.maxIdle <= options.maxIdle && pool.options.maxIdle <= options.limit
      ensures pool != null && options.maxIdle <= options.limit ==> pool.options == options
      ensures pool != null ==> pool.options == options.(maxIdle := pool.options.maxIdle)
    {
      if options.limit == 0 {
        return null;
      }
      pool := new PoolImpl(options);
    }

    constructor (options: Options)
      requires options.limit > 0
      ensures Valid() && Abstract() == EMPTY
      ensures this.options == options.(maxIdle := if options.maxIdle > options.limit then options.limit else options.maxIdle)
    {
      this.options := options.(maxIdle := if options.maxIdle > options.limit then options.limit else options.maxIdle);
      connections, idle, waitingCount, closed := [], [], 0, false;
      held, releasing, blocked, woken := {}, {}, {}, {};
    }

    method PopIdle() returns (c: Conn)
      requires idle != []
      modifies this`idle, this`held
      ensures c == Last(old(idle)) && Abstract() == HandOut(old(Abstract()))
    {
      c := idle[|idle| - 1];
      idle := idle[..|idle| - 1];
      held := held + {c};
    }

    /** `acquire`, up to its return or its first wait. */
    method AcquireOrWait(thread: Thread, made: Option<Conn>) returns (o: Outcome)
      requires Valid() && Enabled(options, Abstract(), Acquire(thread, made))
      modifies this
      ensures Valid() && Abstract() == Next(options, old(Abstract()), Acquire(thread, made))
      ensures o.Got? ==> held == old(held) + {o.conn} && o.conn !in old(held)
      ensures o.Waits? <==> blocked == old(blocked) + {thread} && waitingCount == old(waitingCount) + 1
      ensures o.Threw? ==> Abstract() == old(Abstract())
    {
      AccountedStep(options, Abstract(), Acquire(thread, made));
      CountedStep(options, Abstract(), Acquire(thread, made));
      hide Accounted, Counted;
      if closed {
        return Threw;
      }
      if idle != [] {
        assert idle[|idle| - 1] in Elements(idle);
        var c := PopIdle();
        Disjoint(options, old(Abstract()));
        return Got(c);
      }
      if |connections| < options.limit {
        if made.None? {
          return Threw;
        }
        connections := connections + [made.value];
        held := held + {made.value};
        return Got(made.value);
      }
      if !options.waits {
        return Threw;
      }
      if options.queueLimit != 0 && waitingCount >= options.queueLimit {
        return Threw;
      }
      waitingCount := waitingCount + 1;
      blocked := blocked + {thread};
      o := Waits;
    }

    static lemma Disjoint(o: Options, s: State)
      requires Accounted(o, s) && !s.closed
      ensures Elements(s.idle) !! s.held
    {
    }

    /** The wait loop when its thread runs again. */
    method AfterWait(thread: Thread, timedOut: bool) returns (o: Outcome)
      requires Valid() && Enabled(options, Abstract(), Resume(thread, timedOut))
      modifies this
      ensures Valid() && Abstract() == Next(options, old(Abstract()), Resume(thread, timedOut))
      ensures o.Waits? ==> thread in blocked && waitingCount == old(waitingCount)
      ensures !o.Waits? ==> thread !in blocked + woken && waitingCount == old(waitingCount) - 1
    {
      AccountedStep(options, Abstract(), Resume(thread, timedOut));
      CountedStep(options, Abstract(), Resume(thread, timedOut));
      SomeoneWaits(options, Abstract(), thread);
      hide Accounted, Counted, Elements;
      woken := woken - {thread};
      if timedOut || closed {
        waitingCount := waitingCount - 1;
        return Threw;
      }
      if idle == [] {
        blocked := blocked + {thread};
        return Waits;
      }
      waitingCount := waitingCount - 1;
      var c := PopIdle();
      o := Got(c);
    }

    /** Afterwards the connection is in neither list; the others keep their order. */
    method EraseConnection(c: Conn)
      requires NoDuplicates(connections) && NoDuplicates(idle)
      modifies this`connections, this`idle
      ensures c !in connections && c !in idle && NoDuplicates(connections) && NoDuplicates(idle)
      ensures c !in old(connections) ==> connections == old(connections)
      ensures c !in old(idle) ==> idle == old(idle)
      ensures forall i :: 0 <= i < |old(connections)| && old(connections)[i] == c ==>
                connections == old(connections)[..i] + old(connections)[i + 1..]
      ensures forall i :: 0 <= i < |old(idle)| && old(idle)[i] == c ==> idle == old(idle)[..i] + old(idle)[i + 1..]
    {
      EraseConn(connections, c);
      EraseConn(idle, c);
      ErasedAt(connections, c);
      ErasedAt(idle, c);
      connections := Erase(connections, c);
      idle := Erase(idle, c);
    }

    static lemma ErasedAt(list: seq<Conn>, c: Conn)
      requires NoDuplicates(list)
      ensures forall i :: 0 <= i < |list| && list[i] == c ==> Erase(list, c) == list[..i] + list[i + 1..]
    {
      forall i | 0 <= i < |list| && list[i] == c ensures Erase(list, c) == list[..i] + list[i + 1..] {
        WithoutAt(list, i);
      }
    }

    /** Those properties leave no other list. */
    static lemma OnlyErased(list: seq<Conn>, c: Conn, erased: seq<Conn>)
      requires NoDuplicates(list)
      requires c !in list ==> erased == list
      requires forall i :: 0 <= i < |list| && list[i] == c ==> erased == list[..i] + list[i + 1..]
      ensures erased == Erase(list, c)
    {
      if c in list {
        var i :| 0 <= i < |list| && list[i] == c;
        WithoutAt(list, i);
      }
    }

    static lemma Distinct(o: Options, s: State)
      requires Accounted(o, s)
      ensures NoDuplicates(s.connections) && NoDuplicates(s.idle)
    {
    }

    ghost method NotifyOne(notified: Option<Thread>)
      modifies this`blocked, this`woken
      ensures Abstract() == Notify(old(Abstract()), notified)
    {
      if notified.Some? {
        blocked, woken := blocked - {notified.value}, woken + {notified.value};
      }
    }

    /** `release` begins: the handle gives the connection up outside the mutex. */
    ghost method StartRelease(c: Conn)
      requires Valid() && c in held
      modifies this`held, this`releasing
      ensures Valid() && Abstract() == Next(options, old(Abstract()), BeginRelease(c))
    {
      AccountedStep(options, Abstract(), BeginRelease(c));
      CountedStep(options, Abstract(), BeginRelease(c));
      held, releasing := held - {c}, releasing + {c};
    }

    /** The locked part of `release`, after the reset outside the mutex. */
    method FinishRelease(c: Conn, resetOk: bool, ghost notified: Option<Thread>)
      requires Valid() && Enabled(options, Abstract(), EndRelease(c, resetOk, notified))
      modifies this
      ensures Valid() && Abstract() == Next(options, old(Abstract()), EndRelease(c, resetOk, notified))
    {
      AccountedStep(options, Abstract(), EndRelease(c, resetOk, notified));
      CountedStep(options, Abstract(), EndRelease(c, resetOk, notified));
      Distinct(options, Abstract());
      hide Accounted, Counted, NoDuplicates, Erase;
      releasing := releasing - {c};
      if options.resetOnRelease && !resetOk {
        EraseConnection(c);
        OnlyErased(old(connections), c, connections);
        OnlyErased(old(idle), c, idle);
        NotifyOne(notified);
        return;
      }
      if closed {
        return;
      }
      if |idle| >= options.maxIdle {
        EraseConnection(c);
        OnlyErased(old(connections), c, connections);
        OnlyErased(old(idle), c, idle);
        NotifyOne(notified);
        return;
      }
      idle := idle + [c];
      NotifyOne(notified);
    }

    method End()
      requires Valid()
      modifies this
      ensures Valid() && Abstract() == Next(options, old(Abstract()), EndPool)
    {
      AccountedStep(options, Abstract(), EndPool);
      CountedStep(options, Abstract(), EndPool);
      hide Accounted, Counted;
      if closed && connections == [] {
        return;
      }
      closed := true;
      idle := [];
      connections := [];
      blocked, woken := {}, woken + blocked;
    }
  }
}
