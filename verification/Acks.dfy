/** Acknowledgements of one client as a semilattice: only the greatest delete counts. */
module Acks {
  import opened Wire
  import opened Table

  /** An insert by anyone, or a delete by the client under consideration. */
  datatype Op =
    | Add(frPk: Key, toPk: Bytes, content: Bytes, localMsgId: uint64, createTime: uint64, skip: nat)
    | Del(lastMsgId: uint64)

  function Apply(t: Table, k: Key, op: Op): Table {
    match op
    case Add(fr, to, content, id, time, skip) => Insert(t, fr, to, content, id, time, skip)
    case Del(n) => Delete(t, k, n)
  }

  function RunOps(t: Table, k: Key, ops: seq<Op>): Table {
    if ops == [] then t else Apply(RunOps(t, k, ops[..|ops| - 1]), k, ops[|ops| - 1])
  }

  /** The same inserts without any of the deletes. */
  function Deferred(t: Table, k: Key, ops: seq<Op>): Table {
    if ops == [] then t
    else
      var u := Deferred(t, k, ops[..|ops| - 1]);
      if ops[|ops| - 1].Del? then u else Apply(u, k, ops[|ops| - 1])
  }

  /** The greatest id deleted up to, as the signed number the statement is given. */
  function MaxCut(ops: seq<Op>): (n: uint64)
    ensures n < TWO_63
  {
    if ops == [] then 0
    else
      var m, op := MaxCut(ops[..|ops| - 1]), ops[|ops| - 1];
      if op.Del? && ToI64(op.lastMsgId) > m then ToI64(op.lastMsgId) else m
  }

  /** Insert number `i` stores a row, when its turn comes. */
  predicate Stores(t: Table, k: Key, ops: seq<Op>, i: nat)
    requires i < |ops|
  {
    var op := ops[i];
    op.Add? && Accepts(RunOps(t, k, ops[..i]), op.toPk, op.content, op.localMsgId, op.createTime, op.skip)
  }

  function StoredRow(t: Table, k: Key, ops: seq<Op>, i: nat): Row
    requires i < |ops| && Stores(t, k, ops, i)
  {
    var op := ops[i];
    Row(RunOps(t, k, ops[..i]).nextId + op.skip, op.localMsgId, op.frPk, op.toPk, op.content, op.createTime)
  }

  /** A row had the local id at some time: at the start, or by one of the inserts. */
  predicate Held(t: Table, k: Key, ops: seq<Op>, localMsgId: uint64) {
    LocalIdTaken(t, localMsgId)
    || exists i :: 0 <= i < |ops| && Stores(t, k, ops, i) && ops[i].localMsgId == localMsgId
  }

  /** It is stored although a row had its local id before: a delete in between removed
      that row. */
  predicate Reuses(t: Table, k: Key, ops: seq<Op>, i: nat)
    requires i < |ops|
  {
    Stores(t, k, ops, i) && Held(t, k, ops[..i], ops[i].localMsgId)
  }

  predicate AnyReuse(t: Table, k: Key, ops: seq<Op>) {
    exists i :: 0 <= i < |ops| && Reuses(t, k, ops, i)
  }

  /** Its row belongs to the client and has an id the greatest delete covers, but that
      delete came earlier and no later one reaches the row. */
  predicate Outlives(t: Table, k: Key, ops: seq<Op>, i: nat)
    requires i < |ops|
  {
    && Stores(t, k, ops, i)
    && Doomed(StoredRow(t, k, ops, i), k, MaxCut(ops))
    && MaxCut(ops[i + 1..]) < StoredRow(t, k, ops, i).id
  }

  predicate AnyOutlives(t: Table, k: Key, ops: seq<Op>) {
    exists i :: 0 <= i < |ops| && Outlives(t, k, ops, i)
  }

  /** The ids the inserts can use up. */
  function Demand(ops: seq<Op>): nat {
    if ops == [] then 0
    else Demand(ops[..|ops| - 1]) + if ops[|ops| - 1].Add? then ops[|ops| - 1].skip + 1 else 0
  }

  lemma {:induction false} MaxCutMonotone(ops: seq<Op>, i: nat)
    requires i <= |ops|
    ensures MaxCut(ops[..i]) <= MaxCut(ops)
  {
    if i < |ops| {
      MaxCutMonotone(ops[..|ops| - 1], i);
      assert ops[..|ops| - 1][..i] == ops[..i];
    } else {
      assert ops[..i] == ops;
    }
  }

  /** The greatest delete is the greatest of the deletes, whatever their order. */
  lemma {:induction false} MaxCutIsMax(ops: seq<Op>)
    ensures forall op :: op in ops && op.Del? ==> ToI64(op.lastMsgId) <= MaxCut(ops)
    ensures MaxCut(ops) == 0 || exists op :: op in ops && op.Del? && ToI64(op.lastMsgId) == MaxCut(ops)
  {
    if ops != [] {
      var front, last := ops[..|ops| - 1], ops[|ops| - 1];
      MaxCutIsMax(front);
      assert ops == front + [last];
      assert forall op :: op in ops <==> op in front || op == last;
    }
  }

  /** Deferring the deletes: the table's own rows stay in front of newer ones. */
  lemma {:induction false} DeferredFacts(t: Table, k: Key, ops: seq<Op>)
    requires ValidTable(t)
    ensures ValidTable(Deferred(t, k, ops))
    ensures t.nextId <= Deferred(t, k, ops).nextId
    ensures t.rows <= Deferred(t, k, ops).rows
    ensures forall i :: |t.rows| <= i < |Deferred(t, k, ops).rows| ==> Deferred(t, k, ops).rows[i].id >= t.nextId
  {
    if ops != [] {
      var u, op := Deferred(t, k, ops[..|ops| - 1]), ops[|ops| - 1];
      DeferredFacts(t, k, ops[..|ops| - 1]);
      if op.Add? {
        hide ValidTable;
        InsertValid(u, op.frPk, op.toPk, op.content, op.localMsgId, op.createTime, op.skip);
        assert u.rows <= Apply(u, k, op).rows;
      }
    }
  }

  lemma {:induction false} MaxCutSuffix(ops: seq<Op>, m: nat)
    requires m <= |ops|
    ensures MaxCut(ops[m..]) <= MaxCut(ops)
  {
    if m < |ops| {
      var front := ops[..|ops| - 1];
      MaxCutSuffix(front, m);
      assert ops[m..][..|ops[m..]| - 1] == front[m..];
    }
  }

  lemma {:induction false} RunValid(t: Table, k: Key, ops: seq<Op>)
    requires ValidTable(t)
    ensures ValidTable(RunOps(t, k, ops))
    ensures t.nextId <= RunOps(t, k, ops).nextId
  {
    if ops != [] {
      var u, op := RunOps(t, k, ops[..|ops| - 1]), ops[|ops| - 1];
      RunValid(t, k, ops[..|ops| - 1]);
      hide ValidTable;
      match op
      case Add(fr, to, content, id, time, skip) => InsertValid(u, fr, to, content, id, time, skip);
      case Del(n) => DeleteValid(u, k, n);
    }
  }

  lemma ReusesInPrefix(t: Table, k: Key, ops: seq<Op>, n: nat, i: nat)
    requires i < n <= |ops|
    ensures Reuses(t, k, ops[..n], i) <==> Reuses(t, k, ops, i)
    ensures Stores(t, k, ops[..n], i) <==> Stores(t, k, ops, i)
    ensures Stores(t, k, ops, i) ==> StoredRow(t, k, ops[..n], i) == StoredRow(t, k, ops, i)
  {
    assert ops[..n][..i] == ops[..i] && ops[..n][i] == ops[i];
    hide RunOps, Accepts, LocalIdTaken;
  }

  lemma PrefixReuse(t: Table, k: Key, ops: seq<Op>, n: nat)
    requires n <= |ops| && !AnyReuse(t, k, ops)
    ensures !AnyReuse(t, k, ops[..n])
  {
    hide Reuses;
    forall i | 0 <= i < n
      ensures !Reuses(t, k, ops[..n], i)
    {
      ReusesInPrefix(t, k, ops, n, i);
    }
  }

  // ------------------------------------------------- with and without the deletes

  /** Up to doomed rows, the run and the deferred run agree. */
  predicate Tracks(u: Table, d: Table, k: Key, cut: int) {
    && u.nextId == d.nextId
    && (forall r :: r in u.rows ==> r in d.rows)
    && (forall r :: r in d.rows ==> r in u.rows || Doomed(r, k, cut))
  }

  lemma TracksAdd(u: Table, d: Table, k: Key, cut: int, op: Op)
    requires Tracks(u, d, k, cut) && op.Add?
    requires Accepts(u, op.toPk, op.content, op.localMsgId, op.createTime, op.skip) ==>
               !LocalIdTaken(d, op.localMsgId)
    ensures Tracks(Apply(u, k, op), Apply(d, k, op), k, cut)
    ensures Accepts(d, op.toPk, op.content, op.localMsgId, op.createTime, op.skip) ==>
              Accepts(u, op.toPk, op.content, op.localMsgId, op.createTime, op.skip)
  {
    if LocalIdTaken(u, op.localMsgId) {
      var i :| 0 <= i < |u.rows| && u.rows[i].localMsgId == op.localMsgId;
      assert u.rows[i] in d.rows;
    }
    hide LocalIdTaken, Doomed;
    if Accepts(u, op.toPk, op.content, op.localMsgId, op.createTime, op.skip) {
      var r := Row(u.nextId + op.skip, op.localMsgId, op.frPk, op.toPk, op.content, op.createTime);
      assert forall x :: x in u.rows + [r] <==> x in u.rows || x == r;
      assert forall x :: x in d.rows + [r] <==> x in d.rows || x == r;
    }
  }

  lemma {:induction false} RunTracks(t: Table, k: Key, ops: seq<Op>)
    requires !AnyReuse(t, k, ops)
    ensures Tracks(RunOps(t, k, ops), Deferred(t, k, ops), k, MaxCut(ops))
    ensures forall id: uint64 :: LocalIdTaken(Deferred(t, k, ops), id) ==> Held(t, k, ops, id)
  {
    hide AnyReuse, Accepts, LocalIdTaken, Held;
    if ops == [] {
      forall id: uint64 | LocalIdTaken(t, id)
        ensures Held(t, k, ops, id)
      {
        HeldAtStart(t, k, ops, id);
      }
    } else {
      var front, op := ops[..|ops| - 1], ops[|ops| - 1];
      PrefixReuse(t, k, ops, |front|);
      RunTracks(t, k, front);
      var u, d := RunOps(t, k, front), Deferred(t, k, front);
      HeldMore(t, k, ops);
      match op
      case Add(_, _, _, _, _, _) =>
        NotReused(t, k, ops, |front|);
        TakenAfter(d, k, op);
        hide Apply, Tracks;
        TracksAdd(u, d, k, MaxCut(front), op);
      case Del(n) =>
        SparedMembers(u.rows, k, ToI64(n));
    }
  }

  lemma HeldAtStart(t: Table, k: Key, ops: seq<Op>, id: uint64)
    requires LocalIdTaken(t, id)
    ensures Held(t, k, ops, id)
  {
  }

  lemma HeldMore(t: Table, k: Key, ops: seq<Op>)
    requires ops != []
    ensures var front, op := ops[..|ops| - 1], ops[|ops| - 1];
            forall id: uint64 :: Held(t, k, ops, id) <==>
              Held(t, k, front, id) || (Stores(t, k, ops, |front|) && op.localMsgId == id)
  {
    var front := ops[..|ops| - 1];
    forall i | 0 <= i < |front|
      ensures Stores(t, k, front, i) <==> Stores(t, k, ops, i)
    {
      ReusesInPrefix(t, k, ops, |front|, i);
    }
    hide Stores, LocalIdTaken;
    forall id: uint64 | Held(t, k, front, id)
      ensures Held(t, k, ops, id)
    {
      if !LocalIdTaken(t, id) {
        var i :| 0 <= i < |front| && Stores(t, k, front, i) && front[i].localMsgId == id;
        assert Stores(t, k, ops, i) && ops[i].localMsgId == id;
      }
    }
  }

  lemma NotReused(t: Table, k: Key, ops: seq<Op>, i: nat)
    requires i < |ops| && !AnyReuse(t, k, ops)
    ensures !Reuses(t, k, ops, i)
  {
  }

  /** A row stays as long as no later delete reaches it. */
  lemma {:induction false} Stays(t: Table, k: Key, ops: seq<Op>, m: nat, r: Row)
    requires m <= |ops| && r in RunOps(t, k, ops[..m]).rows
    requires r.toPk != k || MaxCut(ops[m..]) < r.id
    ensures r in RunOps(t, k, ops).rows
  {
    if m == |ops| {
      assert ops[..m] == ops;
    } else {
      var front, op := ops[..|ops| - 1], ops[|ops| - 1];
      assert ops[m..][..|ops[m..]| - 1] == front[m..];
      assert front[..m] == ops[..m];
      Stays(t, k, front, m, r);
      if op.Del? { SparedMembers(RunOps(t, k, front).rows, k, ToI64(op.lastMsgId)); }
      hide Accepts, MaxCut;
    }
  }

  lemma StoredStays(t: Table, k: Key, ops: seq<Op>, i: nat)
    requires i < |ops| && Stores(t, k, ops, i)
    requires ops[i].toPk != k || MaxCut(ops[i + 1..]) < StoredRow(t, k, ops, i).id
    ensures StoredRow(t, k, ops, i) in RunOps(t, k, ops).rows
  {
    assert ops[..i + 1][..i] == ops[..i];
    hide MaxCut, Accepts;
    Stays(t, k, ops, i + 1, StoredRow(t, k, ops, i));
  }

  /** Insert number `i` stored this row, and no later delete reaches it. */
  predicate StoredLate(t: Table, k: Key, ops: seq<Op>, i: nat, r: Row) {
    i < |ops| && Stores(t, k, ops, i) && StoredRow(t, k, ops, i) == r && MaxCut(ops[i + 1..]) < r.id
  }

  lemma StillLate(t: Table, k: Key, ops: seq<Op>, i: nat, r: Row)
    requires ops != [] && StoredLate(t, k, ops[..|ops| - 1], i, r)
    requires ops[|ops| - 1].Del? ==> ToI64(ops[|ops| - 1].lastMsgId) < r.id
    ensures StoredLate(t, k, ops, i, r)
  {
    var front := ops[..|ops| - 1];
    ReusesInPrefix(t, k, ops, |front|, i);
    assert ops[i + 1..][..|ops[i + 1..]| - 1] == front[i + 1..];
    hide Stores, StoredRow;
  }

  lemma LastIsLate(t: Table, k: Key, ops: seq<Op>, r: Row)
    requires ops != [] && r.id > 0
    requires r in RunOps(t, k, ops).rows && r !in RunOps(t, k, ops[..|ops| - 1]).rows
    ensures StoredLate(t, k, ops, |ops| - 1, r)
  {
    var u, op := RunOps(t, k, ops[..|ops| - 1]), ops[|ops| - 1];
    if op.Del? { SparedMembers(u.rows, k, ToI64(op.lastMsgId)); }
    hide Accepts;
    assert ops[|ops|..] == [];
  }

  /** A row that survives the greatest delete was stored after it. */
  lemma {:induction false} SurvivorIsLate(t: Table, k: Key, ops: seq<Op>, r: Row) returns (i: nat)
    requires r.id > 0 && r in RunOps(t, k, ops).rows && Doomed(r, k, MaxCut(ops))
    ensures StoredLate(t, k, ops, i, r)
  {
    if ops == [] {
      assert false;
    } else {
      var front, op := ops[..|ops| - 1], ops[|ops| - 1];
      var u := RunOps(t, k, front);
      hide StoredLate, Accepts;
      if r in u.rows {
        if op.Del? { SparedMembers(u.rows, k, ToI64(op.lastMsgId)); }
        hide Apply;
        i := SurvivorIsLate(t, k, front, r);
        StillLate(t, k, ops, i, r);
      } else {
        i := |front|;
        LastIsLate(t, k, ops, r);
      }
    }
  }

  lemma LateOutlives(t: Table, k: Key, ops: seq<Op>, i: nat, r: Row)
    requires StoredLate(t, k, ops, i, r) && Doomed(r, k, MaxCut(ops))
    ensures AnyOutlives(t, k, ops)
  {
    assert Outlives(t, k, ops, i);
  }

  lemma NoneSurvives(t: Table, k: Key, ops: seq<Op>, r: Row)
    requires ValidTable(t) && !AnyOutlives(t, k, ops) && r in RunOps(t, k, ops).rows
    ensures !Doomed(r, k, MaxCut(ops))
  {
    RunValid(t, k, ops);
    hide AnyOutlives, StoredLate, RunOps, MaxCut;
    if Doomed(r, k, MaxCut(ops)) {
      var i := SurvivorIsLate(t, k, ops, r);
      LateOutlives(t, k, ops, i, r);
    }
  }

  /** Without reuse and with no row stored late below the greatest delete, deletes in any
      order, repeated and interleaved with inserts, amount to the greatest at the end. */
  lemma OnlyGreatestCounts(t: Table, k: Key, ops: seq<Op>)
    requires ValidTable(t) && !AnyReuse(t, k, ops) && !AnyOutlives(t, k, ops)
    ensures RunOps(t, k, ops) == Delete(Deferred(t, k, ops), k, MaxCut(ops))
  {
    hide AnyReuse, AnyOutlives, Spared, Doomed, RunOps, Deferred, MaxCut, DistinctLocalIds;
    var u, d, m := RunOps(t, k, ops), Deferred(t, k, ops), MaxCut(ops);
    RunTracks(t, k, ops);
    RunValid(t, k, ops);
    DeferredFacts(t, k, ops);
    SparedMembers(d.rows, k, m);
    SparedIncreasing(d.rows, k, m);
    forall r | r in u.rows
      ensures !Doomed(r, k, m)
    {
      NoneSurvives(t, k, ops, r);
    }
    IncreasingUnique(u.rows, Spared(d.rows, k, m));
  }

  // ------------------------------------------------------------- the exceptions

  /** The run never has a local id the deferred run has not, and is ahead of it in ids as
      soon as a local id was reused. */
  lemma {:induction false} ReuseShifts(t: Table, k: Key, ops: seq<Op>)
    requires t.nextId + Demand(ops) <= TWO_63
    ensures RunOps(t, k, ops).nextId <= t.nextId + Demand(ops)
    ensures Deferred(t, k, ops).nextId <= RunOps(t, k, ops).nextId
    ensures AnyReuse(t, k, ops) ==> Deferred(t, k, ops).nextId < RunOps(t, k, ops).nextId
    ensures Covers(Deferred(t, k, ops), RunOps(t, k, ops))
    ensures forall id: uint64 :: Held(t, k, ops, id) ==> LocalIdTaken(Deferred(t, k, ops), id)
  {
    if ops != [] {
      var front, op := ops[..|ops| - 1], ops[|ops| - 1];
      ReuseShifts(t, k, front);
      LastReuse(t, k, ops);
      HeldMore(t, k, ops);
      hide AnyReuse, Held, LocalIdTaken, Accepts;
      var u, d := RunOps(t, k, front), Deferred(t, k, front);
      if op.Del? {
        SparedMembers(u.rows, k, ToI64(op.lastMsgId));
        CoversFewer(d, u, Apply(u, k, op));
      } else {
        CoversAdd(d, u, k, op);
        TakenAfter(d, k, op);
        TakenAfter(u, k, op);
        hide Apply;
      }
    }
  }

  lemma LastReuse(t: Table, k: Key, ops: seq<Op>)
    requires ops != []
    ensures AnyReuse(t, k, ops) <==> AnyReuse(t, k, ops[..|ops| - 1]) || Reuses(t, k, ops, |ops| - 1)
  {
    hide Reuses;
    var front := ops[..|ops| - 1];
    forall i | 0 <= i < |front|
      ensures Reuses(t, k, front, i) <==> Reuses(t, k, ops, i)
    {
      ReusesInPrefix(t, k, ops, |front|, i);
    }
    if AnyReuse(t, k, front) {
      var i :| 0 <= i < |front| && Reuses(t, k, front, i);
      assert Reuses(t, k, ops, i);
    }
  }

  /** Every local id in `u` is one in `d`. */
  ghost predicate Covers(d: Table, u: Table) {
    forall id: uint64 :: LocalIdTaken(u, id) ==> LocalIdTaken(d, id)
  }

  lemma CoversFewer(d: Table, u: Table, u': Table)
    requires Covers(d, u) && forall r :: r in u'.rows ==> r in u.rows
    ensures Covers(d, u')
  {
    forall id: uint64 | LocalIdTaken(u', id)
      ensures LocalIdTaken(u, id)
    {
      var i :| 0 <= i < |u'.rows| && u'.rows[i].localMsgId == id;
      assert u'.rows[i] in u.rows;
    }
  }

  lemma CoversAdd(d: Table, u: Table, k: Key, op: Op)
    requires Covers(d, u) && op.Add? && d.nextId <= u.nextId && u.nextId + op.skip + 1 <= TWO_63
    ensures var d', u' := Apply(d, k, op), Apply(u, k, op);
            && Covers(d', u') && u'.nextId <= u.nextId + op.skip + 1
            && u'.nextId - d'.nextId == u.nextId - d.nextId
               + if Accepts(u, op.toPk, op.content, op.localMsgId, op.createTime, op.skip)
                    && LocalIdTaken(d, op.localMsgId) then 1 else 0
  {
    TakenAfter(d, k, op);
    TakenAfter(u, k, op);
    hide LocalIdTaken;
  }

  lemma TakenAfter(u: Table, k: Key, op: Op)
    requires op.Add?
    ensures forall id: uint64 :: LocalIdTaken(Apply(u, k, op), id) <==>
              LocalIdTaken(u, id) ||
              (id == op.localMsgId && Accepts(u, op.toPk, op.content, op.localMsgId, op.createTime, op.skip))
  {
    var u' := Apply(u, k, op);
    forall id: uint64
      ensures LocalIdTaken(u', id) <==>
              LocalIdTaken(u, id) ||
              (id == op.localMsgId && Accepts(u, op.toPk, op.content, op.localMsgId, op.createTime, op.skip))
    {
      assert u.rows <= u'.rows;
      if LocalIdTaken(u, id) {
        var i :| 0 <= i < |u.rows| && u.rows[i].localMsgId == id;
        assert u'.rows[i].localMsgId == id;
      }
      if Accepts(u, op.toPk, op.content, op.localMsgId, op.createTime, op.skip) {
        assert u'.rows[|u.rows|].localMsgId == op.localMsgId;
      }
    }
  }

  /** When all deletes are below the ids in play, a row that reuses a local id shows. */
  lemma ReuseShows(t: Table, k: Key, ops: seq<Op>)
    requires ValidTable(t) && MaxCut(ops) < t.nextId && AnyReuse(t, k, ops)
    ensures RunOps(t, k, ops) != Delete(Deferred(t, k, ops), k, MaxCut(ops))
  {
    var i :| 0 <= i < |ops| && Reuses(t, k, ops, i);
    var x, d := StoredRow(t, k, ops, i), Deferred(t, k, ops);
    RunValid(t, k, ops[..i]);
    MaxCutSuffix(ops, i + 1);
    StoredStays(t, k, ops, i);
    var r := Holder(t, k, ops, i);
    DeferredFacts(t, k, ops);
    SparedMembers(d.rows, k, MaxCut(ops));
    hide RunOps, Deferred, AnyReuse, Reuses, MaxCut, Spared;
    assert r in d.rows && x.localMsgId == r.localMsgId && x.id > r.id;
    assert x !in d.rows by { if x in d.rows { SameLocalId(d, x, r); } }
  }

  lemma SameLocalId(d: Table, x: Row, r: Row)
    requires ValidTable(d) && x in d.rows && r in d.rows && x.localMsgId == r.localMsgId
    ensures x == r
  {
  }

  /** The row whose local id is taken over is one of the table's own. */
  lemma Holder(t: Table, k: Key, ops: seq<Op>, i: nat) returns (r: Row)
    requires ValidTable(t) && i < |ops| && Reuses(t, k, ops, i)
    requires MaxCut(ops) < t.nextId
    ensures r in t.rows && r.localMsgId == ops[i].localMsgId && r.id < t.nextId
  {
    var front := ops[..i];
    if !LocalIdTaken(t, ops[i].localMsgId) {
      var j :| 0 <= j < |front| && Stores(t, k, front, j) && front[j].localMsgId == ops[i].localMsgId;
      RunValid(t, k, front[..j]);
      MaxCutMonotone(ops, i);
      MaxCutSuffix(front, j + 1);
      StoredStays(t, k, front, j);
      assert StoredRow(t, k, front, j) in RunOps(t, k, front).rows;
      assert false;
    }
    var j :| 0 <= j < |t.rows| && t.rows[j].localMsgId == ops[i].localMsgId;
    r := t.rows[j];
  }

  /** Exactly when: the deletes amount to the greatest one at the end if and only if no
      insert takes over the local id of a row deleted before it, and no row of the client
      is stored below the greatest delete after the last delete that reaches it. Ids must
      not run out, unless the deletes are below all ids given out meanwhile. */
  lemma AcksFormSemilattice(t: Table, k: Key, ops: seq<Op>)
    requires ValidTable(t)
    requires t.nextId + Demand(ops) <= TWO_63 || MaxCut(ops) < t.nextId
    ensures RunOps(t, k, ops) == Delete(Deferred(t, k, ops), k, MaxCut(ops)) <==>
            !AnyReuse(t, k, ops) && !AnyOutlives(t, k, ops)
  {
    if AnyReuse(t, k, ops) {
      if MaxCut(ops) < t.nextId { ReuseShows(t, k, ops); } else { ReuseShifts(t, k, ops); }
    } else if AnyOutlives(t, k, ops) {
      var i :| 0 <= i < |ops| && Outlives(t, k, ops, i);
      StoredStays(t, k, ops, i);
      SparedMembers(Deferred(t, k, ops).rows, k, MaxCut(ops));
    } else {
      OnlyGreatestCounts(t, k, ops);
    }
  }

  lemma OneMore(t: Table, k: Key, ops: seq<Op>, op: Op)
    ensures RunOps(t, k, ops + [op]) == Apply(RunOps(t, k, ops), k, op)
    ensures Deferred(t, k, ops + [op]) == var u := Deferred(t, k, ops); if op.Del? then u else Apply(u, k, op)
    ensures MaxCut(ops + [op]) ==
            if op.Del? && ToI64(op.lastMsgId) > MaxCut(ops) then ToI64(op.lastMsgId) else MaxCut(ops)
  {
    assert (ops + [op])[..|ops|] == ops;
  }

  function Inserts(ops: seq<Op>): seq<Op> {
    if ops == [] then []
    else Inserts(ops[..|ops| - 1]) + if ops[|ops| - 1].Add? then [ops[|ops| - 1]] else []
  }

  lemma {:induction false} DeferredIsInserts(t: Table, k: Key, ops: seq<Op>)
    ensures Deferred(t, k, ops) == RunOps(t, k, Inserts(ops))
  {
    if ops != [] {
      var front, op := ops[..|ops| - 1], ops[|ops| - 1];
      DeferredIsInserts(t, k, front);
      if op.Add? {
        OneMore(t, k, Inserts(front), op);
      } else {
        assert Inserts(ops) == Inserts(front);
      }
    }
  }

  lemma SameDeletesSameCut(a: seq<Op>, b: seq<Op>)
    requires forall op: Op :: op.Del? ==> (op in a <==> op in b)
    ensures MaxCut(a) == MaxCut(b)
  {
    MaxCutIsMax(a);
    MaxCutIsMax(b);
    hide MaxCut;
  }

  /** So the order and the number of the deletes do not matter, nor where among the
      inserts they come. */
  lemma OrderIrrelevant(t: Table, k: Key, a: seq<Op>, b: seq<Op>)
    requires ValidTable(t)
    requires Inserts(a) == Inserts(b) && forall op: Op :: op.Del? ==> (op in a <==> op in b)
    requires !AnyReuse(t, k, a) && !AnyOutlives(t, k, a)
    requires !AnyReuse(t, k, b) && !AnyOutlives(t, k, b)
    ensures RunOps(t, k, a) == RunOps(t, k, b)
  {
    hide *;
    SameDeletesSameCut(a, b);
    DeferredIsInserts(t, k, a);
    DeferredIsInserts(t, k, b);
    OnlyGreatestCounts(t, k, a);
    OnlyGreatestCounts(t, k, b);
  }

  /** No row can be stored below deletes that are below all new ids. */
  lemma OldDeletesReachNothingNew(t: Table, k: Key, ops: seq<Op>)
    requires ValidTable(t) && MaxCut(ops) < t.nextId
    ensures !AnyOutlives(t, k, ops)
  {
    forall i | 0 <= i < |ops|
      ensures !Outlives(t, k, ops, i)
    {
      RunValid(t, k, ops[..i]);
    }
  }

  /** Both exceptions occur. A row is acknowledged and its local id is sent again... */
  lemma ReuseOccurs(key: Key)
    ensures var t, ops := Table([Row(1, 7, key, key, [], 0)], 2), [Del(1), Add(key, key, [], 7, 0, 0)];
            ValidTable(t) && MaxCut(ops) < t.nextId && AnyReuse(t, key, ops)
  {
    var t, del, add := Table([Row(1, 7, key, key, [], 0)], 2), Del(1), Add(key, key, [], 7, 0, 0);
    var ops := [del, add];
    assert ops[..1] == [del] && [del][..0] == [];
    assert t.rows[..0] == [];
    assert RunOps(t, key, []) == t && Deferred(t, key, []) == t;
    assert RunOps(t, key, [del]).rows == [] && Deferred(t, key, [del]) == t;
    assert MaxCut([del]) == 1 == MaxCut(ops);
    assert t.rows[0].localMsgId == 7;
    assert Reuses(t, key, ops, 1);
  }

  /** ...or an acknowledgement runs ahead of the ids given out. */
  lemma OutlivingOccurs(key: Key)
    ensures var t, ops := Table([], 1), [Del(100), Add(key, key, [], 7, 0, 0)];
            && ValidTable(t) && t.nextId + Demand(ops) <= TWO_63
            && !AnyReuse(t, key, ops) && AnyOutlives(t, key, ops)
  {
    var t, del, add := Table([], 1), Del(100), Add(key, key, [], 7, 0, 0);
    var ops := [del, add];
    assert ops[..1] == [del] && [del][..0] == [] && ops[2..] == [];
    assert RunOps(t, key, []) == t && Deferred(t, key, []) == t;
    assert RunOps(t, key, [del]) == t && Deferred(t, key, [del]) == t;
    assert Demand([]) == 0 && Demand([del]) == 0;
    assert MaxCut([]) == 0 && MaxCut([del]) == 100 == MaxCut(ops);
    assert !Stores(t, key, ops, 0) && !Reuses(t, key, ops, 1);
    assert Outlives(t, key, ops, 1);
  }

  lemma SparedOne(r: Row, k: Key, cut: int)
    ensures Spared([r], k, cut) == if Doomed(r, k, cut) then [] else [r]
  {
    assert [r][..0] == [];
  }

  /** The ids must not run out: here a local id is reused, the run then refuses an insert
      that the deferred run has the id for, and a last delete removes every trace. */
  lemma SupplyMatters(key: Key)
    ensures var t := Table([Row(1, 7, key, key, [], 0)], TWO_63 - 2);
            var ops := [Del(1), Add(key, key, [], 7, 0, 0)] + [Add(key, key, [], 8, 0, 1)] + [Del(TWO_63 - 1)];
            && ValidTable(t) && AnyReuse(t, key, ops)
            && RunOps(t, key, ops) == Delete(Deferred(t, key, ops), key, MaxCut(ops))
  {
    var n: uint64 := TWO_63 - 2;
    var r, x, y := Row(1, 7, key, key, [], 0), Row(n, 7, key, key, [], 0), Row(n + 1, 8, key, key, [], 0);
    var t := Table([r], n);
    var del, add, more, all := Del(1), Add(key, key, [], 7, 0, 0), Add(key, key, [], 8, 0, 1), Del(TWO_63 - 1);
    var ops := [del, add] + [more] + [all];
    assert ops[..1] == [] + [del] && [del, add] == [] + [del] + [add];
    OneMore(t, key, [], del);
    OneMore(t, key, [] + [del], add);
    OneMore(t, key, [del, add], more);
    OneMore(t, key, [del, add] + [more], all);
    SparedOne(r, key, 1);
    SparedOne(r, key, TWO_63 - 1);
    SparedOne(x, key, TWO_63 - 1);
    SparedAppend([r], y, key, TWO_63 - 1);
    SupplyRuns(t, key, r, x, y, add, more);
    assert Reuses(t, key, ops, 1);
  }

  lemma SupplyRuns(t: Table, key: Key, r: Row, x: Row, y: Row, add: Op, more: Op)
    requires t == Table([r], TWO_63 - 2) && r == Row(1, 7, key, key, [], 0)
    requires x == Row(TWO_63 - 2, 7, key, key, [], 0) && y == Row(TWO_63 - 1, 8, key, key, [], 0)
    requires add == Add(key, key, [], 7, 0, 0) && more == Add(key, key, [], 8, 0, 1)
    ensures LocalIdTaken(t, 7)
    ensures Accepts(Table([], TWO_63 - 2), key, [], 7, 0, 0)
    ensures Apply(Table([], TWO_63 - 2), key, add) == Table([x], TWO_63 - 1)
    ensures Apply(Table([x], TWO_63 - 1), key, more) == Table([x], TWO_63)
    ensures Apply(t, key, add) == t
    ensures Apply(t, key, more) == Table([r, y], TWO_63)
  {
    assert t.rows[0].localMsgId == 7;
  }

  // ---------------------------------------------------------------- other keys

  lemma {:induction false} OthersGrow(t: Table, k: Key, ops: seq<Op>, m: nat, other: Key)
    requires ValidTable(t) && m <= |ops| && other != k
    ensures Mailbox(RunOps(t, k, ops[..m]).rows, other) <= Mailbox(RunOps(t, k, ops).rows, other)
  {
    if m == |ops| {
      assert ops[..m] == ops;
    } else {
      var front, op := ops[..|ops| - 1], ops[|ops| - 1];
      assert front[..m] == ops[..m];
      OthersGrow(t, k, front, m, other);
      RunValid(t, k, front);
      var u := RunOps(t, k, front);
      hide Mailbox, Accepts;
      match op
      case Add(fr, to, content, id, time, skip) =>
        if Apply(u, k, op).rows != u.rows {
          MailboxAppend(u.rows, Row(u.nextId + skip, id, fr, to, content, time), other);
        }
      case Del(n) =>
        DeleteSparesOthers(u.rows, k, ToI64(n), other);
    }
  }

  /** Deletes for one key never take a row of another key; and unless a local id is reused
      they leave every other mailbox as the inserts alone make it. */
  lemma OthersUntouched(t: Table, k: Key, ops: seq<Op>, other: Key)
    requires ValidTable(t) && other != k
    ensures forall m :: 0 <= m <= |ops| ==>
              Mailbox(RunOps(t, k, ops[..m]).rows, other) <= Mailbox(RunOps(t, k, ops).rows, other)
    ensures !AnyReuse(t, k, ops) ==>
              Mailbox(RunOps(t, k, ops).rows, other) == Mailbox(Deferred(t, k, ops).rows, other)
  {
    forall m | 0 <= m <= |ops|
      ensures Mailbox(RunOps(t, k, ops[..m]).rows, other) <= Mailbox(RunOps(t, k, ops).rows, other)
    {
      OthersGrow(t, k, ops, m, other);
    }
    if !AnyReuse(t, k, ops) {
      var u, d := RunOps(t, k, ops), Deferred(t, k, ops);
      RunTracks(t, k, ops);
      RunValid(t, k, ops);
      DeferredFacts(t, k, ops);
      MailboxMembers(u.rows, other);
      MailboxMembers(d.rows, other);
      MailboxIncreasing(u.rows, other);
      MailboxIncreasing(d.rows, other);
      hide Mailbox, AnyReuse, RunOps, Deferred;
      IncreasingUnique(Mailbox(u.rows, other), Mailbox(d.rows, other));
    }
  }

  // ------------------------------------------------------------ unsigned numbers

  lemma SparedNothing(t: Table, k: Key, cut: int)
    requires ValidTable(t) && forall r :: r in t.rows ==> !Doomed(r, k, cut)
    ensures Spared(t.rows, k, cut) == t.rows
  {
    SparedMembers(t.rows, k, cut);
    SparedIncreasing(t.rows, k, cut);
    IncreasingUnique(Spared(t.rows, k, cut), t.rows);
  }

  /** A delete removes every row up to its id if and only if the id is below 2^63, where
      the statement's signed parameter holds it, or there is nothing to remove. */
  lemma DeleteReachesIff(t: Table, k: Key, n: uint64)
    requires ValidTable(t)
    ensures (forall r :: r in t.rows && r.toPk == k && r.id <= n ==> r !in Delete(t, k, n).rows)
            <==> n < TWO_63 || Mailbox(t.rows, k) == []
  {
    SparedMembers(t.rows, k, ToI64(n));
    MailboxMembers(t.rows, k);
    var m := Mailbox(t.rows, k);
    if n >= TWO_63 && m != [] {
      assert m[0] in m;
      assert m[0].Valid();
    }
  }

  /** The greatest id deleted up to, as the requests write it. */
  function MaxUnsigned(ops: seq<Op>): uint64 {
    if ops == [] then 0
    else
      var m, op := MaxUnsigned(ops[..|ops| - 1]), ops[|ops| - 1];
      if op.Del? && op.lastMsgId > m then op.lastMsgId else m
  }

  lemma {:induction false} SignedIsUnsigned(ops: seq<Op>)
    requires MaxUnsigned(ops) < TWO_63
    ensures MaxCut(ops) == MaxUnsigned(ops)
  {
    if ops != [] { SignedIsUnsigned(ops[..|ops| - 1]); }
  }

  /** Where deletes amount to the greatest signed one, they amount to the greatest
      unsigned one if and only if that is below 2^63 or there is nothing to remove. */
  lemma UnsignedMaximumIff(t: Table, k: Key, ops: seq<Op>)
    requires ValidTable(t) && !AnyReuse(t, k, ops) && !AnyOutlives(t, k, ops)
    ensures RunOps(t, k, ops) == Delete(Deferred(t, k, ops), k, MaxUnsigned(ops)) <==>
            || MaxUnsigned(ops) < TWO_63
            || forall r :: r in Deferred(t, k, ops).rows ==> !Doomed(r, k, MaxCut(ops))
  {
    OnlyGreatestCounts(t, k, ops);
    DeferredFacts(t, k, ops);
    hide AnyReuse, AnyOutlives;
    var d, m, n := Deferred(t, k, ops), MaxCut(ops), MaxUnsigned(ops);
    if n < TWO_63 {
      SignedIsUnsigned(ops);
    } else {
      SparedNothing(d, k, ToI64(n));
      SparedMembers(d.rows, k, m);
      if forall r :: r in d.rows ==> !Doomed(r, k, m) { SparedNothing(d, k, m); }
    }
  }

  /** It does differ: the unsigned maximum of 5 and 2^63 deletes nothing, while the two
      deletes together remove ids up to 5. */
  lemma UnsignedMaximumFails(key: Key)
    ensures var t := Table([Row(1, 7, key, key, [], 0)], 6);
            && ValidTable(t)
            && RunOps(t, key, [Del(5), Del(TWO_63)]).rows == []
            && Delete(t, key, TWO_63) == t
  {
    var t := Table([Row(1, 7, key, key, [], 0)], 6);
    var ops := [Del(5), Del(TWO_63)];
    assert ops[..1] == [Del(5)] && ops[..1][..0] == [];
    assert t.rows[..0] == [];
    assert RunOps(t, key, ops[..1]).rows == [];
  }
}
