/** Main theorem over whole runs: an honest client's transcript followed by what is
    pending for it is the sequence of all messages ever stored for it. */
module ExactlyOnce {
  import opened Wire
  import opened ProtoRequests
  import opened Table
  import opened Batch
  import opened Handlers
  import opened Protocol
  import P = Proto

  // --------------------------------------------------------------- storing a row

  lemma RecvShape(t: Table, p: Packet, env: Env)
    requires ValidTable(t) && p.cmd == SendRequest
    ensures var t' := Handle(t, p, env).0;
            && t.nextId <= t'.nextId
            && (t'.rows == t.rows ||
                exists r :: t'.rows == t.rows + [r] && Added(t, t') == [r] && r.Valid() && t.nextId <= r.id < t'.nextId)
  {
    var t' := Handle(t, p, env).0;
    if |t.rows| < |t'.rows| {
      HandleValid(t, p, env);
      var r := t'.rows[|t.rows|];
      assert t'.rows == t.rows + [r];
      assert t'.rows[|t.rows|].Valid();
    }
  }

  lemma LogGrows(t: Table, log: seq<Row>, t': Table, r: Row)
    requires LogHolds(t, log) && ValidTable(t')
    requires t'.rows == t.rows + [r] && r.Valid() && t.nextId <= r.id < t'.nextId
    ensures LogHolds(t', log + [r])
  {
    hide ValidTable;
    assert forall x :: x in log + [r] <==> x in log || x == r;
    forall i, j | 0 <= i < j < |log + [r]|
      ensures (log + [r])[i].id < (log + [r])[j].id
    {
      assert (log + [r])[i] in log;
    }
  }

  lemma GoneGrows(t: Table, log: seq<Row>, t': Table, r: Row, k: Key, h: uint64)
    requires GoneIsSeen(t, log, k, h) && t'.rows == t.rows + [r]
    ensures GoneIsSeen(t', log + [r], k, h)
  {
  }

  lemma CompleteGrows(log: seq<Row>, rows: seq<Row>, k: Key, h: uint64, r: Row)
    requires Complete(log, rows, k, h)
    requires forall x :: x in log ==> x.id < r.id
    ensures Complete(log + [r], rows, k, h)
  {
    if rows != [] { assert rows[|rows| - 1] in log; }
  }

  lemma TranscriptKept(log: seq<Row>, k: Key, c: Client, r: Row)
    requires Transcript(log, k, c) && Increasing(log) && Increasing(log + [r]) && c.hwm < r.id
    ensures Transcript(log + [r], k, c)
  {
    var m, m' := Mailbox(log, k), Mailbox(log + [r], k);
    MailboxAppend(log, r, k);
    hide Mailbox, Messages, Increasing;
    if r.toPk == k {
      assert m' == m + [r] && m'[..|m'| - 1] == m;
      assert SeenCount(m', c.hwm) == SeenCount(m, c.hwm);
    } else {
      assert m' == m;
    }
    assert m'[..SeenCount(m', c.hwm)] == m[..SeenCount(m, c.hwm)];
  }

  lemma StoreStep(s: State, p: Packet, env: Env, k: Key)
    requires Inv(s, k) && p.cmd == SendRequest
    ensures Inv(Perform(s, ServerHandles(p, env)), k)
  {
    hide LogHolds, ValidTable, GoneIsSeen, Complete, Carries, Transcript, DeletesOnlySeen, Recv, RecvReply;
    var s' := Perform(s, ServerHandles(p, env));
    var t, t' := s.table, s'.table;
    assert ValidTable(t) by { LogValid(t, s.log); }
    HandleValid(t, p, env);
    RecvShape(t, p, env);
    RecvReplyCmd(p.pk, p.bytes);
    forall r | r in s'.responses && r.packet.cmd == PullResponse
      ensures r in s.responses
    {
    }
    if t'.rows == t.rows {
      assert s'.log == s.log;
      LogSame(t, s.log, t');
      GoneSame(t, s.log, t', k, ClientOf(s, k).hwm);
    } else {
      var r :| t'.rows == t.rows + [r] && Added(t, t') == [r] && r.Valid() && t.nextId <= r.id < t'.nextId;
      LogGrows(t, s.log, t', r);
      GoneGrows(t, s.log, t', r, k, ClientOf(s, k).hwm);
      LogFacts(t, s.log);
      LogFacts(t', s'.log);
      TranscriptKept(s.log, k, ClientOf(s, k), r);
      forall q | q in s.responses && q.packet.pk == k && q.packet.cmd == PullResponse
        ensures Complete(s'.log, q.rows, k, ClientOf(s, k).hwm)
      {
        CompleteGrows(s.log, q.rows, k, ClientOf(s, k).hwm, r);
      }
    }
  }

  lemma LogValid(t: Table, log: seq<Row>)
    requires LogHolds(t, log)
    ensures ValidTable(t)
  {
  }

  lemma LogFacts(t: Table, log: seq<Row>)
    requires LogHolds(t, log)
    ensures Increasing(log)
    ensures forall r :: r in log ==> r.id < t.nextId
  {
  }

  lemma LogSame(t: Table, log: seq<Row>, t': Table)
    requires LogHolds(t, log) && ValidTable(t')
    requires t'.rows == t.rows && t.nextId <= t'.nextId
    ensures LogHolds(t', log)
  {
  }

  lemma GoneSame(t: Table, log: seq<Row>, t': Table, k: Key, h: uint64)
    requires GoneIsSeen(t, log, k, h) && t'.rows == t.rows
    ensures GoneIsSeen(t', log, k, h)
  {
  }

  lemma RecvReplyCmd(fr: Key, bytes: Bytes)
    ensures forall i :: 0 <= i < |RecvReply(fr, bytes)| ==> RecvReply(fr, bytes)[i].cmd == SendResponse
  {
  }

  // -------------------------------------------------------------- deleting rows

  lemma DeleteStep(s: State, p: Packet, env: Env, k: Key)
    requires Inv(s, k) && p.cmd == DelRequest && p in s.requests
    ensures Inv(Perform(s, ServerHandles(p, env)), k)
  {
    hide ValidTable, Complete, Carries, Transcript, Increasing, Spared;
    var s' := Perform(s, ServerHandles(p, env));
    var t, t' := s.table, s'.table;
    HandleValid(t, p, env);
    assert s'.responses == s.responses;
    if t' != t {
      var req := ParseDelReq(p.bytes).value;
      var cut := ToI64(req.lastMsgId);
      SparedMembers(t.rows, p.pk, cut);
      assert |t'.rows| <= |t.rows|;
    }
    assert s'.log == s.log;
  }

  // ------------------------------------------------------------------- pulling

  lemma SentIsComplete(t: Table, log: seq<Row>, k: Key, h: uint64, env: Env)
    requires LogHolds(t, log) && GoneIsSeen(t, log, k, h)
    ensures Complete(log, Sent(t, k, env), k, h)
  {
    hide Mailbox, Sent, BatchOf, ValidTable;
    assert ValidTable(t);
    ValidOrder(t);
    var m, rows := Mailbox(t.rows, k), Sent(t, k, env);
    SentIsPrefix(t, k, env);
    MailboxMembers(t.rows, k);
    MailboxIncreasing(t.rows, k);
    assert forall i :: 0 <= i < |rows| ==> rows[i] == m[i];
    PrefixMembers(m, rows);
  }

  lemma ValidOrder(t: Table)
    requires ValidTable(t)
    ensures Increasing(t.rows)
  {
  }

  lemma PrefixMembers(m: seq<Row>, rows: seq<Row>)
    requires Increasing(m) && rows <= m
    ensures Increasing(rows)
    ensures forall r :: r in rows ==> r in m
    ensures rows != [] ==> forall r :: r in m && r.id <= rows[|rows| - 1].id ==> r in rows
  {
    assert forall i :: 0 <= i < |rows| ==> rows[i] == m[i];
  }

  lemma PullStep(s: State, p: Packet, env: Env, k: Key)
    requires Inv(s, k) && p.cmd == PullRequest
    ensures Inv(Perform(s, ServerHandles(p, env)), k)
  {
    hide LogHolds, ValidTable, GoneIsSeen, Complete, Carries, Transcript;
    hide DeletesOnlySeen, PullResult, Sent, P.EncodePullRes;
    var s' := Perform(s, ServerHandles(p, env));
    assert s'.table == s.table && s'.log == s.log;
    SentIsComplete(s.table, s.log, k, ClientOf(s, k).hwm, env);
    LogValid(s.table, s.log);
    PulledCarries(s.table, p.pk, env);
  }

  lemma PulledCarries(t: Table, pk: Key, env: Env)
    requires ValidTable(t)
    ensures Carries(Response(PullReply(t, pk, env)[0], Sent(t, pk, env)))
  {
    hide ValidTable, BatchOf, Listed, P.EncodePullRes, P.ParsePullRes;
    PullResponseDecodes(t, pk, env);
  }

  // ----------------------------------------------------------------- receiving

  lemma CompleteLater(log: seq<Row>, rows: seq<Row>, k: Key, h: uint64, h': uint64)
    requires Complete(log, rows, k, h) && h <= h'
    ensures Complete(log, rows, k, h')
  {
  }

  lemma ReceiveStep(s: State, r: Response, k: Key)
    requires Inv(s, k) && r in s.responses
    ensures Inv(Perform(s, FriendReceives(r)), k)
  {
    var s' := Perform(s, FriendReceives(r));
    hide LogHolds, ValidTable, Complete, Transcript, Absorb;
    if r.packet.pk == k && r.packet.cmd == PullResponse {
      var c, c' := ClientOf(s, k), ClientOf(s', k);
      LogFacts(s.table, s.log);
      AbsorbComplete(s.log, k, r.rows, c);
      assert c' == Absorb(c, Messages(r.rows));
      LastInLog(s.table, s.log, k, c.hwm, r.rows);
      forall q | q in s.responses && q.packet.pk == k && q.packet.cmd == PullResponse
        ensures Complete(s.log, q.rows, k, c'.hwm)
      {
        CompleteLater(s.log, q.rows, k, c.hwm, c'.hwm);
      }
    }
  }

  lemma LastInLog(t: Table, log: seq<Row>, k: Key, h: uint64, rows: seq<Row>)
    requires LogHolds(t, log) && Complete(log, rows, k, h)
    ensures rows != [] ==> rows[|rows| - 1].id < t.nextId
  {
    if rows != [] { assert rows[|rows| - 1] in log; }
  }

  // -------------------------------------------------------------------- theorem

  lemma NoticeCmd(t: Table, pk: Key, env: Env)
    ensures forall i :: 0 <= i < |NoticeReply(t, pk, env)| ==> NoticeReply(t, pk, env)[i].cmd == ReadNoticeCmd
  {
  }

  lemma QuietStep(s: State, s': State, k: Key)
    requires Inv(s, k)
    requires s'.table == s.table && s'.log == s.log && s'.clients == s.clients
    requires forall p :: p in s'.requests && p.pk == k && p.cmd == DelRequest ==>
               p in s.requests || DeletesOnlySeen(p.bytes, ClientOf(s, k).hwm)
    requires forall r :: r in s'.responses && r.packet.cmd == PullResponse ==> r in s.responses
    ensures Inv(s', k)
  {
    hide LogHolds, GoneIsSeen, Complete, Carries, Transcript, DeletesOnlySeen;
  }

  lemma StepKeepsInv(honest: set<Key>, s: State, step: Step, k: Key)
    requires k in honest && Inv(s, k) && Enabled(honest, s, step)
    ensures Inv(Perform(s, step), k)
  {
    hide Inv;
    match step
    case FriendSends(p) =>
      QuietStep(s, Perform(s, step), k);
    case ServerHandles(p, env) =>
      match p.cmd {
        case SendRequest => StoreStep(s, p, env, k);
        case PullRequest => PullStep(s, p, env, k);
        case DelRequest => DeleteStep(s, p, env, k);
        case _ => QuietStep(s, Perform(s, step), k);
      }
    case FriendConnects(pk, env) =>
      NoticeCmd(s.table, pk, env);
      QuietStep(s, Perform(s, step), k);
    case FriendReceives(r) =>
      ReceiveStep(s, r, k);
  }

  lemma {:induction false} RunKeepsInv(honest: set<Key>, states: seq<State>, steps: seq<Step>, i: nat, k: Key)
    requires k in honest && Run(honest, states, steps) && i < |states|
    ensures Inv(states[i], k)
  {
    hide *;
    RunStart(honest, states, steps);
    if i == 0 {
      InitInv(states[0], k);
    } else {
      RunKeepsInv(honest, states, steps, i - 1, k);
      RunAt(honest, states, steps, i - 1);
      StepKeepsInv(honest, states[i - 1], steps[i - 1], k);
    }
  }

  lemma InitInv(s: State, k: Key)
    requires Init(s)
    ensures Inv(s, k)
  {
  }

  /** The rows in the table for `k` that its client has not accepted yet. */
  function Pending(s: State, k: Key): seq<Row> {
    Mailbox(Spared(s.table.rows, k, ClientOf(s, k).hwm), k)
  }

  /** Nothing lost, nothing twice, nothing out of order: in every reachable state what an
      honest client accepted, followed by what is pending for it in the table, is exactly
      the sequence of all messages ever stored for it, whatever the network, the other
      friends and SQL exceptions do. */
  lemma ExactlyOnceInOrder(honest: set<Key>, states: seq<State>, steps: seq<Step>, i: nat, k: Key)
    requires k in honest && Run(honest, states, steps) && i < |states|
    ensures ClientOf(states[i], k).seen + Messages(Pending(states[i], k)) == Messages(Mailbox(states[i].log, k))
  {
    RunKeepsInv(honest, states, steps, i, k);
    SeenAndPending(states[i], k);
  }

  lemma SeenAndPending(s: State, k: Key)
    requires Inv(s, k)
    ensures ClientOf(s, k).seen + Messages(Pending(s, k)) == Messages(Mailbox(s.log, k))
  {
    PendingIsRest(s.table, s.log, k, ClientOf(s, k).hwm);
    SplitMessages(s.log, k, ClientOf(s, k), Pending(s, k));
  }

  /** A delete request leaves everything pending if and only if it does not take effect,
      nothing is pending, or the first pending row lies above its id. */
  lemma AckLosesNothingIff(s: State, p: Packet, env: Env)
    requires ValidTable(s.table) && p.cmd == DelRequest
    ensures var pending := Pending(s, p.pk);
            Pending(Perform(s, ServerHandles(p, env)), p.pk) == pending <==>
              || env.raises || ParseDelReq(p.bytes).None? || pending == []
              || ToI64(ParseDelReq(p.bytes).value.lastMsgId) < pending[0].id
  {
    hide Pending, ValidTable, ParseDelReq;
    if !env.raises && ParseDelReq(p.bytes).Some? {
      PendingAfter(s, p, env);
      var cut, pending := ToI64(ParseDelReq(p.bytes).value.lastMsgId), Pending(s, p.pk);
      var pending' := Pending(Perform(s, ServerHandles(p, env)), p.pk);
      hide Perform;
      if pending == [] {
        IncreasingUnique(pending', pending);
      } else {
        assert pending[0] in pending;
        if cut < pending[0].id {
          HeadIsLeast(pending);
          IncreasingUnique(pending', pending);
        }
      }
    } else {
      assert Pending(Perform(s, ServerHandles(p, env)), p.pk) == Pending(s, p.pk) by { PendingSame(s, p, env); }
    }
  }

  lemma HeadIsLeast(rows: seq<Row>)
    requires Increasing(rows) && rows != []
    ensures forall r :: r in rows ==> rows[0].id <= r.id
  {
  }

  lemma PendingSame(s: State, p: Packet, env: Env)
    requires p.cmd == DelRequest && (env.raises || ParseDelReq(p.bytes).None?)
    ensures Pending(Perform(s, ServerHandles(p, env)), p.pk) == Pending(s, p.pk)
  {
    hide Mailbox, Spared;
  }

  lemma PendingAfter(s: State, p: Packet, env: Env)
    requires ValidTable(s.table) && p.cmd == DelRequest && ParseDelReq(p.bytes).Some? && !env.raises
    ensures var cut, pending := ToI64(ParseDelReq(p.bytes).value.lastMsgId), Pending(s, p.pk);
            var pending' := Pending(Perform(s, ServerHandles(p, env)), p.pk);
            && Increasing(pending) && Increasing(pending')
            && forall r :: r in pending' <==> r in pending && r.id > cut
  {
    hide Mailbox, Spared, DistinctLocalIds, Increasing;
    var t, k, h := s.table, p.pk, ClientOf(s, p.pk).hwm;
    var cut := ToI64(ParseDelReq(p.bytes).value.lastMsgId);
    var after := t.(rows := Spared(t.rows, k, cut));
    SparedIncreasing(t.rows, k, cut);
    SparedMembers(t.rows, k, cut);
    RowsPendingIncreasing(t.rows, k, h);
    RowsPendingIncreasing(after.rows, k, h);
    forall r
      ensures r in Pending(s, k) <==> r in t.rows && r.toPk == k && r.id > h
      ensures r in Mailbox(Spared(after.rows, k, h), k) <==> r in t.rows && r.toPk == k && r.id > h && r.id > cut
    {
      PendingMembers(t, k, h, r);
      PendingMembers(after, k, h, r);
    }
  }

  lemma SplitMessages(log: seq<Row>, k: Key, c: Client, pending: seq<Row>)
    requires Transcript(log, k, c)
    requires Mailbox(log, k) == Mailbox(log, k)[..SeenCount(Mailbox(log, k), c.hwm)] + pending
    ensures c.seen + Messages(pending) == Messages(Mailbox(log, k))
  {
    hide Mailbox, SeenCount, RowMessage;
    var m := Mailbox(log, k);
    var n := SeenCount(m, c.hwm);
    assert Messages(m[..n] + pending) == Messages(m[..n]) + Messages(pending);
  }

  lemma PendingIsRest(t: Table, log: seq<Row>, k: Key, h: uint64)
    requires LogHolds(t, log) && GoneIsSeen(t, log, k, h)
    ensures var m := Mailbox(log, k);
            m == m[..SeenCount(m, h)] + Mailbox(Spared(t.rows, k, h), k)
  {
    hide ValidTable, Mailbox, SeenCount;
    var m := Mailbox(log, k);
    var n, pending := SeenCount(m, h), Mailbox(Spared(t.rows, k, h), k);
    MailboxIncreasing(log, k);
    SeenCountSplits(m, h);
    ValidOrder(t);
    RowsPendingIncreasing(t.rows, k, h);
    forall r
      ensures r in m[n..] <==> r in pending
    {
      MailboxMembers(log, k);
      RestMembers(m, h, n, r);
      PendingMembers(t, k, h, r);
    }
    IncreasingUnique(m[n..], pending);
  }

  lemma RowsPendingIncreasing(rows: seq<Row>, k: Key, h: uint64)
    requires Increasing(rows)
    ensures Increasing(Mailbox(Spared(rows, k, h), k))
  {
    SparedIncreasing(rows, k, h);
    MailboxIncreasing(Spared(rows, k, h), k);
  }

  lemma PendingMembers(t: Table, k: Key, h: uint64, r: Row)
    ensures r in Mailbox(Spared(t.rows, k, h), k) <==> r in t.rows && r.toPk == k && r.id > h
  {
    SparedMembers(t.rows, k, h);
    MailboxMembers(Spared(t.rows, k, h), k);
  }

  lemma RestMembers(m: seq<Row>, h: uint64, n: nat, r: Row)
    requires n <= |m| && forall i :: 0 <= i < |m| ==> (m[i].id <= h <==> i < n)
    ensures r in m[n..] <==> r in m && r.id > h
  {
    if r in m && r.id > h {
      var i :| 0 <= i < |m| && m[i] == r;
      assert m[n..][i - n] == r;
    }
  }
}
