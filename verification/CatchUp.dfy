/** Eventual delivery: from every reachable state an honest client can still get everything
    that is pending for it, exactly if every pending row fits a response. */
module CatchUp {
  import opened Wire
  import opened ProtoRequests
  import opened Table
  import opened Batch
  import opened Handlers
  import opened Protocol
  import opened ExactlyOnce
  import opened Runs
  import opened Progress
  import Drain

  /** Some steps lead from one state to the other. */
  ghost predicate LeadsTo(honest: set<Key>, s: State, s': State) {
    exists states, steps :: Leads(honest, states, steps, s, s')
  }

  ghost predicate Leads(honest: set<Key>, states: seq<State>, steps: seq<Step>, s: State, s': State) {
    && |states| == |steps| + 1 && states[0] == s && states[|steps|] == s'
    && forall i :: 0 <= i < |steps| ==>
         Enabled(honest, states[i], steps[i]) && states[i + 1] == Perform(states[i], steps[i])
  }

  lemma LeadsNowhere(honest: set<Key>, s: State)
    ensures LeadsTo(honest, s, s)
  {
    assert Leads(honest, [s], [], s, s);
  }

  lemma LeadsOn(honest: set<Key>, s: State, s': State, step: Step)
    requires LeadsTo(honest, s, s') && Enabled(honest, s', step)
    ensures LeadsTo(honest, s, Perform(s', step))
  {
    hide Enabled, Perform;
    var states, steps :| Leads(honest, states, steps, s, s');
    LeadsLonger(honest, states, steps, s, s', step);
  }

  lemma LeadsLonger(honest: set<Key>, states: seq<State>, steps: seq<Step>, s: State, s': State, step: Step)
    requires Leads(honest, states, steps, s, s') && Enabled(honest, s', step)
    ensures Leads(honest, states + [Perform(s', step)], steps + [step], s, Perform(s', step))
  {
    hide Enabled, Perform;
  }

  // -------------------------------------------------------------- getting there

  lemma Sends(honest: set<Key>, s0: State, s: State, k: Key, p: Packet)
    requires k in honest && Inv(s, k) && LeadsTo(honest, s0, s) && Enabled(honest, s, FriendSends(p))
    ensures var s' := Perform(s, FriendSends(p));
            && LeadsTo(honest, s0, s') && Inv(s', k) && p in s'.requests
            && s'.table == s.table && s'.log == s.log && ClientOf(s', k) == ClientOf(s, k)
  {
    LeadsOn(honest, s0, s, FriendSends(p));
    StepKeepsInv(honest, s, FriendSends(p), k);
    hide LeadsTo, Inv, Enabled;
  }

  lemma PullEnabled(honest: set<Key>, s: State, k: Key)
    ensures Enabled(honest, s, FriendSends(Packet(k, PullRequest, [])))
    ensures Drain.QUIET.listRaisesAfter.None?
  {
  }

  lemma HandleEnabled(honest: set<Key>, s: State, p: Packet, env: Env)
    requires p in s.requests
    ensures Enabled(honest, s, ServerHandles(p, env))
  {
  }

  lemma ReceiveEnabled(honest: set<Key>, s: State, r: Response)
    requires r in s.responses
    ensures Enabled(honest, s, FriendReceives(r))
  {
  }

  /** The client pulls and receives the batch. */
  lemma Pulls(honest: set<Key>, s0: State, s: State, k: Key) returns (s': State)
    requires k in honest && Inv(s, k) && LeadsTo(honest, s0, s)
    ensures LeadsTo(honest, s0, s') && Inv(s', k) && s'.table == s.table && s'.log == s.log
    ensures var batch := BatchOf(Mailbox(s.table.rows, k));
            batch <= Mailbox(s.table.rows, k)
            && (batch != [] ==> batch[|batch| - 1].id <= ClientOf(s', k).hwm)
            && ClientOf(s, k).hwm <= ClientOf(s', k).hwm
  {
    hide *;
    var p, env := Packet(k, PullRequest, []), Drain.QUIET;
    PullEnabled(honest, s, k);
    Sends(honest, s0, s, k, p);
    var a := Perform(s, FriendSends(p));
    PullIsHandled(a, k, [], env);
    var b := Handled(a, p, env);
    HandledIs(a, p, env);
    var r := b.responses[|a.responses|];
    HandleEnabled(honest, a, p, env);
    LeadsOn(honest, s0, a, ServerHandles(p, env));
    ReceiveEnabled(honest, b, r);
    LeadsOn(honest, s0, b, FriendReceives(r));
    MarkMoves(b, r, k);
    s' := Perform(b, FriendReceives(r));
  }

  lemma HandledIs(s: State, p: Packet, env: Env)
    ensures Handled(s, p, env) == Perform(s, ServerHandles(p, env))
  {
  }

  lemma DeleteEnabled(honest: set<Key>, s: State, k: Key, id: uint64)
    requires id <= ClientOf(s, k).hwm
    ensures Enabled(honest, s, FriendSends(Packet(k, DelRequest, EncodeDelReq(DelReq(id)))))
  {
    DelReqRoundTrip(DelReq(id));
    hide ParseDelReq, EncodeDelReq;
  }

  /** The client acknowledges a prefix of its mailbox that it has accepted. */
  lemma Acknowledges(honest: set<Key>, s0: State, s: State, k: Key, sent: seq<Row>) returns (s': State)
    requires k in honest && Inv(s, k) && LeadsTo(honest, s0, s)
    requires sent <= Mailbox(s.table.rows, k) && sent != [] && sent[|sent| - 1].id <= ClientOf(s, k).hwm
    ensures LeadsTo(honest, s0, s') && Inv(s', k) && s'.log == s.log && ClientOf(s', k) == ClientOf(s, k)
    ensures sent + Mailbox(s'.table.rows, k) == Mailbox(s.table.rows, k)
  {
    hide *;
    var id, env := sent[|sent| - 1].id, Drain.QUIET;
    var d := Packet(k, DelRequest, EncodeDelReq(DelReq(id)));
    DeleteEnabled(honest, s, k, id);
    Sends(honest, s0, s, k, d);
    var a := Perform(s, FriendSends(d));
    InvValid(s, k);
    Drain.AckedBatch(s.table, k, sent);
    DeletePerformed(a, k, id, env);
    HandleEnabled(honest, a, d, env);
    LeadsOn(honest, s0, a, ServerHandles(d, env));
    StepKeepsInv(honest, a, ServerHandles(d, env), k);
    s' := Perform(a, ServerHandles(d, env));
  }

  lemma DeletePerformed(s: State, k: Key, id: uint64, env: Env)
    requires Del(s.table, k, EncodeDelReq(DelReq(id)), env) == Delete(s.table, k, id)
    ensures var s' := Perform(s, ServerHandles(Packet(k, DelRequest, EncodeDelReq(DelReq(id))), env));
            s'.table == Delete(s.table, k, id) && s'.log == s.log && s'.clients == s.clients
            && ClientOf(s', k) == ClientOf(s, k)
  {
    hide Del, EncodeDelReq, Spared;
    assert s.log + [] == s.log;
  }

  predicate AllFit(rows: seq<Row>) {
    forall i :: 0 <= i < |rows| ==> RowSize(rows[i]) < MAX_SIZE
  }

  lemma AllFitSuffix(a: seq<Row>, b: seq<Row>, rows: seq<Row>)
    requires AllFit(rows) && a + b == rows
    ensures AllFit(b)
  {
    hide RowSize;
    assert forall i :: 0 <= i < |b| ==> b[i] == rows[|a| + i];
  }

  lemma HeadFits(rows: seq<Row>)
    requires AllFit(rows) && rows != []
    ensures BatchOf(rows) != []
  {
    HeadIsSent(rows);
    hide RowSize, BatchOf;
  }

  /** Pulling and acknowledging in turn empties a mailbox whose rows all fit. */
  lemma {:induction false} EmptiesMailbox(honest: set<Key>, s0: State, s: State, k: Key) returns (s': State)
    requires k in honest && Inv(s, k) && LeadsTo(honest, s0, s)
    requires AllFit(Mailbox(s.table.rows, k))
    ensures LeadsTo(honest, s0, s') && Inv(s', k) && s'.log == s.log
    ensures Mailbox(s'.table.rows, k) == []
    decreases |Mailbox(s.table.rows, k)|
  {
    hide *;
    s' := s;
    var mailbox := Mailbox(s.table.rows, k);
    if mailbox != [] {
      HeadFits(mailbox);
      var batch := BatchOf(mailbox);
      var a := Pulls(honest, s0, s, k);
      var b := Acknowledges(honest, s0, a, k, batch);
      AllFitSuffix(batch, Mailbox(b.table.rows, k), mailbox);
      s' := EmptiesMailbox(honest, s0, b, k);
    }
  }

  lemma PendingOfNothing(s: State, k: Key)
    requires Mailbox(s.table.rows, k) == []
    ensures Pending(s, k) == []
  {
    MailboxMembers(s.table.rows, k);
    hide Mailbox;
    if Pending(s, k) != [] {
      var r := Pending(s, k)[0];
      PendingMembers(s.table, k, ClientOf(s, k).hwm, r);
    }
  }

  /** What is accepted and still in the mailbox comes before what is pending. */
  lemma MailboxIsSeenThenPending(s: State, k: Key)
    requires Inv(s, k)
    ensures var m, h := Mailbox(s.table.rows, k), ClientOf(s, k).hwm;
            var n := SeenCount(m, h);
            && m[n..] == Pending(s, k) && (n > 0 ==> m[n - 1].id <= h)
  {
    var t, m, h := s.table, Mailbox(s.table.rows, k), ClientOf(s, k).hwm;
    var n := SeenCount(m, h);
    InvValid(s, k);
    MailboxExact(t, k);
    SeenCountSplits(m, h);
    RowsPendingIncreasing(t.rows, k, h);
    hide Inv, Mailbox, Spared, SeenCount, ClientOf, ValidTable;
    forall r
      ensures r in m[n..] <==> r in Pending(s, k)
    {
      PendingMembers(t, k, h, r);
      RestMembers(m, h, n, r);
    }
    SuffixIncreasing(m, n);
    IncreasingUnique(m[n..], Pending(s, k));
  }

  lemma SuffixIncreasing(m: seq<Row>, n: nat)
    requires Increasing(m) && n <= |m|
    ensures Increasing(m[n..])
  {
  }

  /** If everything pending fits, the client can get it all. */
  lemma CatchesUp(honest: set<Key>, s: State, k: Key) returns (s': State)
    requires k in honest && Inv(s, k) && AllFit(Pending(s, k))
    ensures LeadsTo(honest, s, s') && Inv(s', k) && s'.log == s.log && Pending(s', k) == []
  {
    hide *;
    LeadsNowhere(honest, s);
    MailboxIsSeenThenPending(s, k);
    var m := Mailbox(s.table.rows, k);
    var n := SeenCount(m, ClientOf(s, k).hwm);
    var a := s;
    if n > 0 {
      a := Acknowledges(honest, s, s, k, m[..n]);
      assert Mailbox(a.table.rows, k) == m[n..] by { Remains(m, n, Mailbox(a.table.rows, k)); }
    } else {
      assert m[0..] == m;
    }
    s' := EmptiesMailbox(honest, s, a, k);
    PendingOfNothing(s', k);
  }

  lemma Remains(m: seq<Row>, n: nat, rest: seq<Row>)
    requires n <= |m| && m[..n] + rest == m
    ensures rest == m[n..]
  {
  }

  // ------------------------------------------------------------ getting stuck

  /** Every response to `k` holds only rows that fit. */
  ghost predicate OnlyFitting(s: State, k: Key) {
    forall r :: r in s.responses && r.packet.pk == k && r.packet.cmd == PullResponse ==> AllFit(r.rows)
  }

  lemma SentFits(t: Table, k: Key, env: Env)
    requires ValidTable(t)
    ensures AllFit(Sent(t, k, env))
  {
    hide RowSize, BatchOf, Mailbox, Sent, ValidTable;
    SentIsPrefix(t, k, env);
    var mailbox, sent := Mailbox(t.rows, k), Sent(t, k, env);
    Drain.BatchRowsFit(mailbox);
    assert sent <= mailbox && |sent| <= |BatchOf(mailbox)|;
  }

  lemma StepKeepsFitting(s: State, step: Step, k: Key)
    requires Sound(s) && OnlyFitting(s, k)
    ensures OnlyFitting(Perform(s, step), k)
  {
    hide AllFit, Sent, RecvReply, NoticeReply;
    match step
    case ServerHandles(p, env) =>
      SentFits(s.table, k, env);
      OtherReplies(s.table, p, env);
      hide Handle;
    case FriendConnects(pk, env) =>
      NoticeCmd(s.table, pk, env);
    case _ =>
  }

  lemma {:induction false} RunFitting(honest: set<Key>, states: seq<State>, steps: seq<Step>, i: nat, k: Key)
    requires Run(honest, states, steps) && i < |states|
    ensures OnlyFitting(states[i], k)
  {
    hide *;
    RunStart(honest, states, steps);
    if i == 0 {
      InitFitting(states[0], k);
    } else {
      RunFitting(honest, states, steps, i - 1, k);
      RunSound(honest, states, steps, i - 1);
      RunAt(honest, states, steps, i - 1);
      StepKeepsFitting(states[i - 1], steps[i - 1], k);
    }
  }

  lemma InitFitting(s: State, k: Key)
    requires Init(s)
    ensures OnlyFitting(s, k)
  {
  }

  /** An oversize row that the client has not accepted. */
  ghost predicate Stuck(s: State, k: Key, b: Row) {
    && Inv(s, k) && OnlyFitting(s, k)
    && b in s.table.rows && b.toPk == k && RowSize(b) >= MAX_SIZE && ClientOf(s, k).hwm < b.id
  }

  lemma NotReached(honest: set<Key>, s: State, step: Step, k: Key, b: Row)
    requires Inv(s, k) && Enabled(honest, s, step) && b.toPk == k && ClientOf(s, k).hwm < b.id
    ensures !Reaches(step, b)
  {
    hide LogHolds, GoneIsSeen, ResponsesHold, Transcript, ParseDelReq, ClientOf;
  }

  lemma StopsShort(s: State, r: Response, k: Key, b: Row)
    requires Stuck(s, k, b) && r in s.responses && r.packet.pk == k && r.packet.cmd == PullResponse
    ensures r.rows != [] ==> r.rows[|r.rows| - 1].id < b.id
  {
    hide GoneIsSeen, RequestsHold, Transcript, ClientOf, RowSize, Carries, ValidTable;
    assert b in s.log;
  }

  lemma StepKeepsStuck(honest: set<Key>, s: State, step: Step, k: Key, b: Row)
    requires k in honest && Stuck(s, k, b) && Enabled(honest, s, step)
    ensures Stuck(Perform(s, step), k, b)
  {
    var s' := Perform(s, step);
    NotReached(honest, s, step, k, b);
    hide Inv, OnlyFitting, Perform, Reaches, Enabled, RowSize, ClientOf;
    StepKeepsInv(honest, s, step, k);
    StepKeepsRow(s, step, b);
    InvSound(s, k);
    StepKeepsFitting(s, step, k);
    if step.FriendReceives? && step.r.packet.pk == k && step.r.packet.cmd == PullResponse {
      assert step.r in s.responses by { Received(honest, s, step.r); }
      StopsShort(s, step.r, k, b);
      MarkMoves(s, step.r, k);
    } else {
      MarkStays(s, step, k);
    }
  }

  lemma InvSound(s: State, k: Key)
    requires Inv(s, k)
    ensures Sound(s)
  {
  }

  lemma Received(honest: set<Key>, s: State, r: Response)
    requires Enabled(honest, s, FriendReceives(r))
    ensures r in s.responses
  {
  }

  lemma MarkStays(s: State, step: Step, k: Key)
    requires !(step.FriendReceives? && step.r.packet.pk == k && step.r.packet.cmd == PullResponse)
    ensures ClientOf(Perform(s, step), k) == ClientOf(s, k)
  {
    hide Handle, Receive, NoticeReply;
  }

  lemma {:induction false} LeadsStuck(
    honest: set<Key>, states: seq<State>, steps: seq<Step>, s: State, s': State, i: nat, k: Key, b: Row)
    requires k in honest && Stuck(s, k, b) && Leads(honest, states, steps, s, s') && i <= |steps|
    ensures Stuck(states[i], k, b)
  {
    hide Stuck, Enabled, Perform;
    if i > 0 {
      LeadsStuck(honest, states, steps, s, s', i - 1, k, b);
      StepKeepsStuck(honest, states[i - 1], steps[i - 1], k, b);
    }
  }

  lemma StuckIsPending(s: State, k: Key, b: Row)
    requires Stuck(s, k, b)
    ensures Pending(s, k) != []
  {
    PendingMembers(s.table, k, ClientOf(s, k).hwm, b);
    hide Mailbox, Spared, Inv;
    assert b in Pending(s, k);
  }

  lemma StaysStuck(honest: set<Key>, s: State, s': State, k: Key, b: Row)
    requires k in honest && Stuck(s, k, b) && LeadsTo(honest, s, s')
    ensures Pending(s', k) != []
  {
    hide Stuck, Pending, Leads;
    var states, steps :| Leads(honest, states, steps, s, s');
    LeadsEnd(honest, states, steps, s, s');
    LeadsStuck(honest, states, steps, s, s', |steps|, k, b);
    StuckIsPending(s', k, b);
  }

  lemma LeadsEnd(honest: set<Key>, states: seq<State>, steps: seq<Step>, s: State, s': State)
    requires Leads(honest, states, steps, s, s')
    ensures |states| == |steps| + 1 && states[|steps|] == s'
  {
  }

  lemma MisfitIsStuck(s: State, k: Key) returns (b: Row)
    requires Inv(s, k) && OnlyFitting(s, k) && !AllFit(Pending(s, k))
    ensures Stuck(s, k, b)
  {
    hide Inv, OnlyFitting, Mailbox, Spared, RowSize, Pending;
    var i :| 0 <= i < |Pending(s, k)| && RowSize(Pending(s, k)[i]) >= MAX_SIZE;
    b := Pending(s, k)[i];
    assert b in Pending(s, k);
    PendingIs(s, k, b);
  }

  lemma PendingIs(s: State, k: Key, r: Row)
    ensures r in Pending(s, k) <==> r in s.table.rows && r.toPk == k && r.id > ClientOf(s, k).hwm
  {
    PendingMembers(s.table, k, ClientOf(s, k).hwm, r);
  }

  /** From every reachable state some continuation delivers everything that is pending for
      an honest client if and only if every pending row fits a response. (What it accepted
      is then all that was ever stored for it, by ExactlyOnceInOrder.) */
  lemma CanCatchUpIff(honest: set<Key>, states: seq<State>, steps: seq<Step>, i: nat, k: Key)
    requires k in honest && Run(honest, states, steps) && i < |states|
    ensures (exists s' :: LeadsTo(honest, states[i], s') && Pending(s', k) == []) <==>
            forall r :: r in Pending(states[i], k) ==> RowSize(r) < MAX_SIZE
  {
    RunKeepsInv(honest, states, steps, i, k);
    RunFitting(honest, states, steps, i, k);
    var s := states[i];
    hide Run, Inv, OnlyFitting, LeadsTo, Pending, RowSize;
    if AllFit(Pending(s, k)) {
      var s' := CatchesUp(honest, s, k);
    } else {
      var b := MisfitIsStuck(s, k);
      forall s' | LeadsTo(honest, s, s')
        ensures Pending(s', k) != []
      {
        StaysStuck(honest, s, s', k, b);
      }
    }
  }
}
