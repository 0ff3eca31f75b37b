/** The pool under any interleaving of N threads that take and return connections. The
    free list is popped and pushed under the lock, but release reads its size outside. */
module PoolInterleaving {
  import opened Wire


  /** Where a thread is. In the states that end in `Locked`, and between its pop or push
      and its unlock, it holds the lock. */
  datatype Thread =
    | Idle
    | AllocLocked            // acquired the lock in allocate
    | AllocPop               // saw a non-empty free list
    | AllocDone(conn: nat)   // has a connection, about to unlock
    | Holding(conn: nat)     // working
    | Keep(conn: nat)        // release decided to push
    | Discard(conn: nat)     // release decided to destroy
    | PushLocked(conn: nat)  // acquired the lock in release
    | PushDone               // pushed, about to unlock
  {
    predicate Locks() {
      AllocLocked? || AllocPop? || AllocDone? || PushLocked? || PushDone?
    }

    predicate Owns() {
      AllocDone? || Holding? || Keep? || Discard? || PushLocked?
    }
  }

  datatype State = State(
    maxConn: nat, free: seq<nat>, lock: Option<nat>, threads: seq<Thread>,
    created: nat, destroyed: set<nat>)

  function Start(n: nat, maxConn: nat): State {
    State(maxConn, [], None, seq(n, _ => Idle), 0, {})
  }

  /** A thread can move unless it waits for the lock. */
  predicate CanMove(s: State, i: nat) {
    i < |s.threads| && (s.threads[i].Idle? || s.threads[i].Keep? ==> s.lock.None?)
  }

  /** One step of thread `i`; `closed` says whether a popped connection was closed. */
  function Move(s: State, i: nat, closed: bool): State
    requires CanMove(s, i)
  {
    match s.threads[i]
    case Idle => s.(lock := Some(i), threads := s.threads[i := AllocLocked])
    case AllocLocked =>
      if s.free == [] then s.(threads := s.threads[i := AllocDone(s.created)], created := s.created + 1)
      else s.(threads := s.threads[i := AllocPop])
    case AllocPop =>
      if s.free == [] then s  // pop_back on an empty list: shown never to happen
      else
        var conn, rest := s.free[|s.free| - 1], s.free[..|s.free| - 1];
        if closed then
          s.(free := rest, threads := s.threads[i := AllocDone(s.created)], created := s.created + 1,
             destroyed := s.destroyed + {conn})
        else s.(free := rest, threads := s.threads[i := AllocDone(conn)])
    case AllocDone(conn) => s.(lock := None, threads := s.threads[i := Holding(conn)])
    case Holding(conn) => s.(threads := s.threads[i := if |s.free| > s.maxConn then Discard(conn) else Keep(conn)])
    case Discard(conn) => s.(threads := s.threads[i := Idle], destroyed := s.destroyed + {conn})
    case Keep(conn) => s.(lock := Some(i), threads := s.threads[i := PushLocked(conn)])
    case PushLocked(conn) => s.(free := s.free + [conn], threads := s.threads[i := PushDone])
    case PushDone => s.(lock := None, threads := s.threads[i := Idle])
  }

  /** A schedule names the thread that moves next, and whether its pop meets a closed
      connection; a thread that cannot move is passed over. */
  function Execute(s: State, schedule: seq<(nat, bool)>): State {
    if schedule == [] then s
    else
      var u := Execute(s, schedule[..|schedule| - 1]);
      var (i, closed) := schedule[|schedule| - 1];
      if CanMove(u, i) then Move(u, i, closed) else u
  }

  // -------------------------------------------------------------- invariants

  function Owners(threads: seq<Thread>): (n: nat)
    ensures n <= |threads|
  {
    if threads == [] then 0
    else Owners(threads[..|threads| - 1]) + if threads[|threads| - 1].Owns() then 1 else 0
  }

  predicate MutualExclusion(s: State) {
    && (s.lock.Some? ==> s.lock.value < |s.threads|)
    && forall i :: 0 <= i < |s.threads| ==> (s.threads[i].Locks() <==> s.lock == Some(i))
  }

  predicate PopsAreSafe(s: State) {
    forall i :: 0 <= i < |s.threads| && s.threads[i].AllocPop? ==> s.free != []
  }

  /** Every connection is in one place: owned by one thread, once in the free list, or
      destroyed. */
  predicate OnePlace(s: State) {
    && (forall i :: 0 <= i < |s.free| ==> s.free[i] < s.created && s.free[i] !in s.destroyed)
    && (forall i, j :: 0 <= i < j < |s.free| ==> s.free[i] != s.free[j])
    && (forall c :: c in s.destroyed ==> c < s.created)
    && (forall i :: 0 <= i < |s.threads| && s.threads[i].Owns() ==>
          s.threads[i].conn < s.created && s.threads[i].conn !in s.destroyed && s.threads[i].conn !in s.free)
    && (forall i, j :: 0 <= i < j < |s.threads| && s.threads[i].Owns() && s.threads[j].Owns() ==>
          s.threads[i].conn != s.threads[j].conn)
  }

  /** No connection leaks. */
  predicate NoLeak(s: State) {
    forall c :: 0 <= c < s.created ==>
      c in s.free || c in s.destroyed ||
      exists i :: 0 <= i < |s.threads| && s.threads[i].Owns() && s.threads[i].conn == c
  }

  predicate Bounded(s: State) {
    |s.free| + Owners(s.threads) <= |s.threads|
  }

  predicate Inv(s: State) {
    MutualExclusion(s) && PopsAreSafe(s) && OnePlace(s) && NoLeak(s) && Bounded(s)
  }

  lemma {:induction false} OwnersUpdate(threads: seq<Thread>, i: nat, t: Thread)
    requires i < |threads|
    ensures Owners(threads[i := t]) ==
            Owners(threads) - (if threads[i].Owns() then 1 else 0) + (if t.Owns() then 1 else 0)
  {
    var front := threads[..|threads| - 1];
    if i == |threads| - 1 {
      assert threads[i := t][..i] == front;
    } else {
      OwnersUpdate(front, i, t);
      assert threads[i := t][..|threads| - 1] == front[i := t];
    }
  }

  lemma MoveLocks(s: State, i: nat, closed: bool)
    requires MutualExclusion(s) && PopsAreSafe(s) && CanMove(s, i)
    ensures MutualExclusion(Move(s, i, closed)) && PopsAreSafe(Move(s, i, closed))
  {
  }

  lemma TakeLast(s: State)
    requires OnePlace(s) && s.free != []
    ensures var conn, u := s.free[|s.free| - 1], s.(free := s.free[..|s.free| - 1]);
            OnePlace(u) && OwnedByNone(u, conn)
  {
    var conn, rest := s.free[|s.free| - 1], s.free[..|s.free| - 1];
    assert conn in s.free;
    assert forall c :: c in rest ==> c in s.free && c != conn;
  }

  /** A live connection that is neither free nor owned. */
  predicate OwnedByNone(s: State, conn: nat) {
    && conn < s.created && conn !in s.destroyed && conn !in s.free
    && forall i :: 0 <= i < |s.threads| && s.threads[i].Owns() ==> s.threads[i].conn != conn
  }

  lemma Replace(s: State, conn: nat)
    requires OnePlace(s) && OwnedByNone(s, conn)
    ensures var u := s.(created := s.created + 1, destroyed := s.destroyed + {conn});
            OnePlace(u) && OwnedByNone(u, s.created)
  {
  }

  lemma PopOnePlace(s: State, i: nat, closed: bool)
    requires OnePlace(s) && i < |s.threads| && s.threads[i].AllocPop? && s.free != []
    ensures OnePlace(Move(s, i, closed))
  {
    hide OnePlace;
    var conn, u := s.free[|s.free| - 1], s.(free := s.free[..|s.free| - 1]);
    TakeLast(s);
    if closed {
      Replace(u, conn);
      PlaceFor(u.(created := s.created + 1, destroyed := s.destroyed + {conn}), i, AllocDone(s.created));
    } else {
      PlaceFor(u, i, AllocDone(conn));
    }
  }

  lemma PushOnePlace(s: State, i: nat)
    requires OnePlace(s) && i < |s.threads| && s.threads[i].PushLocked?
    ensures OnePlace(Move(s, i, false)) && Move(s, i, true) == Move(s, i, false)
  {
    var conn := s.threads[i].conn;
    PlaceFor(s, i, PushDone);
    assert forall c :: c in s.free + [conn] <==> c in s.free || c == conn;
  }

  lemma DiscardOnePlace(s: State, i: nat)
    requires OnePlace(s) && i < |s.threads| && s.threads[i].Discard?
    ensures OnePlace(Move(s, i, false)) && Move(s, i, true) == Move(s, i, false)
  {
    PlaceFor(s, i, Idle);
  }

  /** Thread `i` may own a connection that nobody else has. */
  lemma PlaceFor(s: State, i: nat, t: Thread)
    requires OnePlace(s) && i < |s.threads|
    requires t.Owns() ==> t.conn < s.created && t.conn !in s.destroyed && t.conn !in s.free
    requires t.Owns() ==>
      forall j :: 0 <= j < |s.threads| && j != i && s.threads[j].Owns() ==> s.threads[j].conn != t.conn
    ensures OnePlace(s.(threads := s.threads[i := t]))
  {
  }

  lemma MoveOnePlace(s: State, i: nat, closed: bool)
    requires OnePlace(s) && CanMove(s, i)
    ensures OnePlace(Move(s, i, closed))
  {
    match s.threads[i]
    case AllocPop => if s.free != [] { PopOnePlace(s, i, closed); }
    case PushLocked(conn) => PushOnePlace(s, i);
    case Discard(conn) => DiscardOnePlace(s, i);
    case AllocLocked =>
      if s.free == [] {
        PlaceFor(s.(created := s.created + 1), i, AllocDone(s.created));
      } else {
        PlaceFor(s, i, AllocPop);
      }
    case _ => PlaceFor(s, i, Move(s, i, closed).threads[i]);
  }

  lemma MoveNoLeak(s: State, i: nat, closed: bool)
    requires NoLeak(s) && CanMove(s, i)
    ensures NoLeak(Move(s, i, closed))
  {
    var s' := Move(s, i, closed);
    assert s.free != [] ==> forall c :: c in s.free ==> c in s.free[..|s.free| - 1] || c == s.free[|s.free| - 1];
    assert s'.threads == s.threads || s'.threads == s.threads[i := s'.threads[i]];
    forall c | 0 <= c < s'.created
      ensures c in s'.free || c in s'.destroyed
              || exists j :: 0 <= j < |s'.threads| && s'.threads[j].Owns() && s'.threads[j].conn == c
    {
      if c < s.created && c !in s.free && c !in s.destroyed {
        var j :| 0 <= j < |s.threads| && s.threads[j].Owns() && s.threads[j].conn == c;
        if j != i { assert s'.threads[j] == s.threads[j]; }
      }
      assert s'.threads[i].Owns() && s'.threads[i].conn == c ==>
          exists j :: 0 <= j < |s'.threads| && s'.threads[j].Owns() && s'.threads[j].conn == c;
    }
  }

  lemma MoveBounded(s: State, i: nat, closed: bool)
    requires Bounded(s) && CanMove(s, i)
    ensures Bounded(Move(s, i, closed))
    ensures |Move(s, i, closed).threads| == |s.threads|
  {
    var s' := Move(s, i, closed);
    OwnersUpdate(s.threads, i, s'.threads[i]);
    assert s'.threads == s.threads[i := s'.threads[i]];
  }

  lemma {:induction false} NoneOwns(threads: seq<Thread>)
    requires forall i :: 0 <= i < |threads| ==> threads[i].Idle?
    ensures Owners(threads) == 0
  {
    if threads != [] { NoneOwns(threads[..|threads| - 1]); }
  }

  /** Whatever the schedule: the lock excludes, no pop meets an empty list, no connection
      is in two places, none leaks, and at most N connections are free or owned. */
  lemma {:induction false} SafeUnderEverySchedule(n: nat, maxConn: nat, schedule: seq<(nat, bool)>)
    ensures Inv(Execute(Start(n, maxConn), schedule))
    ensures |Execute(Start(n, maxConn), schedule).threads| == n
  {
    if schedule == [] {
      NoneOwns(Start(n, maxConn).threads);
    } else {
      SafeUnderEverySchedule(n, maxConn, schedule[..|schedule| - 1]);
      var s := Execute(Start(n, maxConn), schedule[..|schedule| - 1]);
      var (i, closed) := schedule[|schedule| - 1];
      hide MutualExclusion, PopsAreSafe, OnePlace, NoLeak, Bounded, Move, CanMove, Start;
      if CanMove(s, i) {
        MoveLocks(s, i, closed);
        MoveOnePlace(s, i, closed);
        MoveNoLeak(s, i, closed);
        MoveBounded(s, i, closed);
      }
    }
  }

  // ----------------------------------------------------- what the check buys

  /** How many threads have passed the size check and not pushed yet. */
  function Releasing(threads: seq<Thread>): (n: nat)
    ensures n <= |threads|
  {
    if threads == [] then 0
    else
      var t := threads[|threads| - 1];
      Releasing(threads[..|threads| - 1]) + if t.Keep? || t.PushLocked? then 1 else 0
  }

  lemma {:induction false} ReleasingUpdate(threads: seq<Thread>, i: nat, t: Thread)
    requires i < |threads|
    ensures Releasing(threads[i := t]) ==
            Releasing(threads) - (if threads[i].Keep? || threads[i].PushLocked? then 1 else 0)
            + (if t.Keep? || t.PushLocked? then 1 else 0)
  {
    var front := threads[..|threads| - 1];
    if i == |threads| - 1 {
      assert threads[i := t][..i] == front;
    } else {
      ReleasingUpdate(front, i, t);
      assert threads[i := t][..|threads| - 1] == front[i := t];
    }
  }

  lemma {:induction false} NoneReleases(threads: seq<Thread>)
    requires forall i :: 0 <= i < |threads| ==> !threads[i].Keep? && !threads[i].PushLocked?
    ensures Releasing(threads) == 0
  {
    if threads != [] { NoneReleases(threads[..|threads| - 1]); }
  }

  /** At no time do more than `p` threads release at once. */
  ghost predicate Overlap(s: State, schedule: seq<(nat, bool)>, p: nat) {
    forall m :: 0 <= m <= |schedule| ==> Releasing(Execute(s, schedule[..m]).threads) <= p
  }

  lemma OverlapFront(s: State, schedule: seq<(nat, bool)>, p: nat)
    requires Overlap(s, schedule, p)
    ensures Releasing(Execute(s, schedule).threads) <= p
    ensures schedule != [] ==> Overlap(s, schedule[..|schedule| - 1], p)
  {
    assert schedule[..|schedule|] == schedule;
    if schedule != [] {
      var front := schedule[..|schedule| - 1];
      forall m | 0 <= m <= |front|
        ensures Releasing(Execute(s, front[..m]).threads) <= p
      {
        assert front[..m] == schedule[..m];
      }
    }
  }

  /** Only a thread that finds at most the maximum free starts to push, so a move never
      brings the free list and the threads past the check above the bound. */
  lemma MoveReleasing(s: State, i: nat, closed: bool)
    requires CanMove(s, i)
    ensures var u := Move(s, i, closed);
            || |u.free| + Releasing(u.threads) <= |s.free| + Releasing(s.threads)
            || |u.free| <= s.maxConn
    ensures !s.threads[i].Holding? ==> Releasing(Move(s, i, closed).threads) <= Releasing(s.threads)
    ensures Move(s, i, closed).maxConn == s.maxConn
  {
    var u := Move(s, i, closed);
    ReleasingUpdate(s.threads, i, u.threads[i]);
    assert u.threads == s.threads[i := u.threads[i]];
  }

  /** What the size check buys: with at most `p` threads releasing at once, the free list
      and the threads past the check never exceed the maximum plus `p`. */
  lemma {:induction false} FreeListBound(n: nat, maxConn: nat, schedule: seq<(nat, bool)>, p: nat)
    requires Overlap(Start(n, maxConn), schedule, p)
    ensures var s := Execute(Start(n, maxConn), schedule);
            && |s.free| <= n
            && |s.free| + Releasing(s.threads) <= maxConn + p
            && s.maxConn == maxConn
  {
    SafeUnderEverySchedule(n, maxConn, schedule);
    OverlapFront(Start(n, maxConn), schedule, p);
    if schedule == [] {
      NoneReleases(Start(n, maxConn).threads);
    } else {
      FreeListBound(n, maxConn, schedule[..|schedule| - 1], p);
      var s := Execute(Start(n, maxConn), schedule[..|schedule| - 1]);
      var (i, closed) := schedule[|schedule| - 1];
      hide Move, CanMove, Start, Overlap, Inv, Releasing;
      if CanMove(s, i) { MoveReleasing(s, i, closed); }
    }
  }

  // --------------------------------------------------------- the bound is sharp

  function Numbers(n: nat): seq<nat> {
    seq(n, (i: nat) => i)
  }

  /** The first `k` threads hold a new connection each. */
  function AfterAllocs(n: nat, maxConn: nat, k: nat): State {
    State(maxConn, [], None, seq(n, (i: nat) => if i < k then Holding(i) else Idle), k, {})
  }

  /** Every thread had a connection; the first `c` passed the check and the first `k` of
      them have pushed theirs. */
  function Midway(n: nat, maxConn: nat, k: nat, c: nat): State {
    State(maxConn, Numbers(k), None,
          seq(n, (i: nat) => if i < k then Idle else if i < c then Keep(i) else Holding(i)), n, {})
  }

  lemma {:induction false} MidwayReleasing(n: nat, k: nat, c: nat)
    requires k <= c
    ensures Releasing(Midway(n, 0, k, c).threads) == if n <= k then 0 else if n <= c then n - k else c - k
  {
    if n > 0 {
      assert Midway(n, 0, k, c).threads[..n - 1] == Midway(n - 1, 0, k, c).threads;
      MidwayReleasing(n - 1, k, c);
    }
  }

  lemma Extend(s: State, schedule: seq<(nat, bool)>, i: nat, p: nat)
    requires Overlap(s, schedule, p) && CanMove(Execute(s, schedule), i)
    requires Releasing(Move(Execute(s, schedule), i, false).threads) <= p
    ensures Execute(s, schedule + [(i, false)]) == Move(Execute(s, schedule), i, false)
    ensures Overlap(s, schedule + [(i, false)], p)
  {
    var longer := schedule + [(i, false)];
    assert longer[..|schedule|] == schedule;
    forall m | 0 <= m <= |longer|
      ensures Releasing(Execute(s, longer[..m]).threads) <= p
    {
      if m <= |schedule| {
        assert longer[..m] == schedule[..m];
      } else {
        assert longer[..m] == longer;
      }
    }
  }

  /** Some schedule leads to the state with at most `p` threads releasing at once. */
  ghost predicate Reachable(n: nat, maxConn: nat, p: nat, s: State) {
    exists schedule :: Execute(Start(n, maxConn), schedule) == s && Overlap(Start(n, maxConn), schedule, p)
  }

  lemma OneMove(n: nat, maxConn: nat, p: nat, i: nat, a: State)
    requires Reachable(n, maxConn, p, a) && CanMove(a, i) && Releasing(Move(a, i, false).threads) <= p
    ensures Reachable(n, maxConn, p, Move(a, i, false))
  {
    hide CanMove, Move, Releasing, Execute, Overlap, Start;
    var schedule :| Execute(Start(n, maxConn), schedule) == a && Overlap(Start(n, maxConn), schedule, p);
    Extend(Start(n, maxConn), schedule, i, p);
  }

  lemma {:induction false} AllAllocate(n: nat, maxConn: nat, p: nat, k: nat)
    requires k <= n
    ensures Reachable(n, maxConn, p, AfterAllocs(n, maxConn, k))
  {
    hide Reachable;
    if k == 0 {
      StartReachable(n, maxConn, p);
      assert Start(n, maxConn).threads == AfterAllocs(n, maxConn, 0).threads;
    } else {
      AllAllocate(n, maxConn, p, k - 1);
      var i := k - 1;
      var a := AfterAllocs(n, maxConn, i);
      var b := Move(a, i, false);
      var c := Move(b, i, false);
      var d := Move(c, i, false);
      NoneReleases(b.threads);
      NoneReleases(c.threads);
      NoneReleases(d.threads);
      OneMove(n, maxConn, p, i, a);
      OneMove(n, maxConn, p, i, b);
      OneMove(n, maxConn, p, i, c);
      assert d.threads == AfterAllocs(n, maxConn, k).threads;
    }
  }

  lemma StartReachable(n: nat, maxConn: nat, p: nat)
    ensures Reachable(n, maxConn, p, Start(n, maxConn))
  {
    var schedule: seq<(nat, bool)> := [];
    NoneReleases(Start(n, maxConn).threads);
    assert Execute(Start(n, maxConn), schedule) == Start(n, maxConn);
    assert Overlap(Start(n, maxConn), schedule, p);
  }

  lemma CheckMoves(n: nat, maxConn: nat, k: nat, c: nat)
    requires k <= c < n && k <= maxConn
    ensures CanMove(Midway(n, maxConn, k, c), c)
    ensures Move(Midway(n, maxConn, k, c), c, false) == Midway(n, maxConn, k, c + 1)
  {
    var b := Midway(n, maxConn, k, c + 1);
    assert Move(Midway(n, maxConn, k, c), c, false).threads == b.threads;
  }

  /** One more thread passes the check, which the size of the free list still allows. */
  lemma OneChecks(n: nat, maxConn: nat, p: nat, k: nat, c: nat)
    requires k <= c < n && k <= maxConn && c - k < p
    requires Reachable(n, maxConn, p, Midway(n, maxConn, k, c))
    ensures Reachable(n, maxConn, p, Midway(n, maxConn, k, c + 1))
  {
    CheckMoves(n, maxConn, k, c);
    MidwayReleasing(n, k, c + 1);
    assert Midway(n, maxConn, k, c + 1).threads == Midway(n, 0, k, c + 1).threads;
    hide Reachable, Move, Midway, CanMove, Releasing;
    OneMove(n, maxConn, p, c, Midway(n, maxConn, k, c));
  }

  /** The next thread past the check locks, pushes and unlocks. */
  lemma PushMoves(n: nat, maxConn: nat, k: nat, c: nat) returns (b: State, d: State)
    requires k < c <= n
    ensures var a := Midway(n, maxConn, k, c);
            && CanMove(a, k) && b == Move(a, k, false) && !a.threads[k].Holding?
            && CanMove(b, k) && d == Move(b, k, false) && !b.threads[k].Holding?
            && CanMove(d, k) && Move(d, k, false) == Midway(n, maxConn, k + 1, c) && !d.threads[k].Holding?
  {
    b := Move(Midway(n, maxConn, k, c), k, false);
    d := Move(b, k, false);
    var e := Move(d, k, false);
    assert e.threads == Midway(n, maxConn, k + 1, c).threads;
    assert e.free == Numbers(k + 1);
  }

  lemma OnePushes(n: nat, maxConn: nat, p: nat, k: nat, c: nat)
    requires k < c <= n && c - k <= p
    requires Reachable(n, maxConn, p, Midway(n, maxConn, k, c))
    ensures Reachable(n, maxConn, p, Midway(n, maxConn, k + 1, c))
  {
    var a := Midway(n, maxConn, k, c);
    MidwayReleasing(n, k, c);
    assert a.threads == Midway(n, 0, k, c).threads;
    hide Reachable, Midway, Move, CanMove, Releasing;
    var b, d := PushMoves(n, maxConn, k, c);
    MoveReleasing(a, k, false);
    MoveReleasing(b, k, false);
    MoveReleasing(d, k, false);
    OneMove(n, maxConn, p, k, a);
    OneMove(n, maxConn, p, k, b);
    OneMove(n, maxConn, p, k, d);
  }

  /** One thread after the other releases while the check lets it. */
  lemma {:induction false} ReleaseInTurn(n: nat, maxConn: nat, p: nat, k: nat)
    requires 1 <= p && k <= n && k <= maxConn
    ensures Reachable(n, maxConn, p, Midway(n, maxConn, k, k))
  {
    hide Reachable;
    if k == 0 {
      AllAllocate(n, maxConn, p, n);
      assert AfterAllocs(n, maxConn, n).threads == Midway(n, maxConn, 0, 0).threads;
      assert Numbers(0) == [];
    } else {
      hide Midway;
      ReleaseInTurn(n, maxConn, p, k - 1);
      OneChecks(n, maxConn, p, k - 1, k - 1);
      OnePushes(n, maxConn, p, k - 1, k);
    }
  }

  /** Then several pass the check while the free list is at the maximum. */
  lemma {:induction false} CheckTogether(n: nat, maxConn: nat, p: nat, k: nat, c: nat)
    requires 1 <= p && k <= c <= n && k <= maxConn && c <= k + p
    ensures Reachable(n, maxConn, p, Midway(n, maxConn, k, c))
    decreases c
  {
    hide Reachable, Midway;
    if c == k {
      ReleaseInTurn(n, maxConn, p, k);
    } else {
      CheckTogether(n, maxConn, p, k, c - 1);
      OneChecks(n, maxConn, p, k, c - 1);
    }
  }

  lemma {:induction false} PushAll(n: nat, maxConn: nat, p: nat, k: nat, j: nat, c: nat)
    requires 1 <= p && k <= j <= c <= n && k <= maxConn && c <= k + p
    ensures Reachable(n, maxConn, p, Midway(n, maxConn, j, c))
    decreases j
  {
    hide Reachable, Midway;
    if j == k {
      CheckTogether(n, maxConn, p, k, c);
    } else {
      PushAll(n, maxConn, p, k, j - 1, c);
      OnePushes(n, maxConn, p, j - 1, c);
    }
  }

  function Min(a: nat, b: nat): nat {
    if a < b then a else b
  }

  /** The bound is reached: with at most `p` threads releasing at once, the free list can
      grow to the maximum plus `p`, as far as there are threads. */
  lemma FreeListBoundIsReached(n: nat, maxConn: nat, p: nat)
    requires 1 <= p
    ensures exists schedule ::
              Overlap(Start(n, maxConn), schedule, p)
              && |Execute(Start(n, maxConn), schedule).free| == Min(n, maxConn + p)
  {
    var k, c := Min(n, maxConn), Min(n, maxConn + p);
    PushAll(n, maxConn, p, k, c, c);
    hide Execute, Overlap, Start;
    var schedule :| Execute(Start(n, maxConn), schedule) == Midway(n, maxConn, c, c)
                    && Overlap(Start(n, maxConn), schedule, p);
    assert |Execute(Start(n, maxConn), schedule).free| == c;
  }

  /** The configured maximum bounds the free list if and only if there are no more threads
      than that (or nothing is ever released). Not even threads that release one at a time
      keep to it, because the check lets one connection in above the maximum. */
  lemma MaximumBoundsIff(n: nat, maxConn: nat, p: nat)
    ensures (forall schedule :: Overlap(Start(n, maxConn), schedule, p) ==>
               |Execute(Start(n, maxConn), schedule).free| <= maxConn)
            <==> n <= maxConn || p == 0
  {
    hide Overlap, Execute, Start;
    if n <= maxConn || p == 0 {
      forall schedule | Overlap(Start(n, maxConn), schedule, p)
        ensures |Execute(Start(n, maxConn), schedule).free| <= maxConn
      {
        FreeListBound(n, maxConn, schedule, p);
      }
    } else {
      FreeListBoundIsReached(n, maxConn, p);
    }
  }

  /** Whatever overlaps: every schedule keeps to the maximum if and only if there are no
      more threads than that. */
  lemma MaximumEnforcedIff(n: nat, maxConn: nat)
    ensures (forall schedule :: |Execute(Start(n, maxConn), schedule).free| <= maxConn) <==> n <= maxConn
  {
    hide Execute, Start;
    if n <= maxConn {
      forall schedule
        ensures |Execute(Start(n, maxConn), schedule).free| <= maxConn
      {
        SafeUnderEverySchedule(n, maxConn, schedule);
      }
    } else {
      FreeListBoundIsReached(n, maxConn, n);
    }
  }

  /** In particular for every maximum, even zero, some schedule leaves all N connections
      in the free list. */
  lemma MaximumNotEnforced(n: nat, maxConn: nat)
    ensures exists schedule :: |Execute(Start(n, maxConn), schedule).free| == n
  {
    hide Execute, Start, Overlap;
    FreeListBoundIsReached(n, maxConn, n + 1);
  }

  // ------------------------------------------------------------ one thread alone

  function Repeat(i: nat, closed: bool, times: nat): seq<(nat, bool)> {
    seq(times, _ => (i, closed))
  }

  lemma ExecuteOne(s: State, i: nat, closed: bool, times: nat, u: State)
    requires Execute(s, Repeat(i, closed, times)) == u && CanMove(u, i)
    ensures Execute(s, Repeat(i, closed, times + 1)) == Move(u, i, closed)
  {
    assert Repeat(i, closed, times + 1)[..times] == Repeat(i, closed, times);
  }

  /** An allocate that nobody interrupts does what the pool's class does. */
  lemma AllocateAlone(s: State, i: nat, closed: bool)
    requires i < |s.threads| && s.threads[i].Idle? && s.lock.None?
    ensures var u := Execute(s, Repeat(i, closed, if s.free == [] then 3 else 4));
            && u.lock.None? && i < |u.threads| && u.threads[i].Holding?
            && u.free == (if s.free == [] then [] else s.free[..|s.free| - 1])
            && u.threads[i].conn == if s.free == [] || closed then s.created else s.free[|s.free| - 1]
  {
    var a := Move(s, i, closed);
    var b := Move(a, i, closed);
    var c := Move(b, i, closed);
    ExecuteOne(s, i, closed, 0, s);
    ExecuteOne(s, i, closed, 1, a);
    ExecuteOne(s, i, closed, 2, b);
    if s.free != [] { ExecuteOne(s, i, closed, 3, c); }
  }

  /** So does a release: only interruptions between check and push can differ. */
  lemma ReleaseAlone(s: State, i: nat, closed: bool)
    requires i < |s.threads| && s.threads[i].Holding? && s.lock.None?
    ensures var conn := s.threads[i].conn;
            var u := Execute(s, Repeat(i, closed, if |s.free| > s.maxConn then 2 else 4));
            && u.lock.None? && i < |u.threads| && u.threads[i].Idle?
            && u.free == if |s.free| > s.maxConn then s.free else s.free + [conn]
  {
    var a := Move(s, i, closed);
    var b := Move(a, i, closed);
    ExecuteOne(s, i, closed, 0, s);
    ExecuteOne(s, i, closed, 1, a);
    if |s.free| <= s.maxConn {
      var c := Move(b, i, closed);
      ExecuteOne(s, i, closed, 2, b);
      ExecuteOne(s, i, closed, 3, c);
    }
  }
}
