/** Steps that bring a message on its way: a send makes it pending for its recipient, a
    pull that is received takes a batch off what is pending, a connect is announced. */
module Progress {
  import opened Wire
  import opened ProtoRequests
  import opened MessageBytes
  import opened Table
  import opened Batch
  import opened Handlers
  import opened RequestEffects
  import opened Protocol
  import opened ExactlyOnce
  import opened Runs
  import P = Proto

  /** The state after the server handled the packet. */
  function Handled(s: State, p: Packet, env: Env): State {
    Perform(s, ServerHandles(p, env))
  }

  function NewRow(t: Table, fr: Key, req: Req, env: Env): Row
    requires Admitted(t, req, env)
  {
    Row(t.nextId + env.skip, req.localMsgId, fr, req.toPk, req.cryptoMessage, env.now)
  }

  function SendReply(pk: Key, req: Req): Response {
    Response(Packet(pk, SendResponse, NumberBytes(8, ToU64(req.localMsgId))), [])
  }

  /** A request that the table admits makes its message pending for the recipient, behind
      all others, and is answered. */
  lemma SendBecomesPending(
    honest: set<Key>, states: seq<State>, steps: seq<Step>, i: nat, p: Packet, env: Env, req: Req, k: Key)
    requires Run(honest, states, steps) && i < |states| && k in honest
    requires p.cmd == SendRequest && ParseReq(p.bytes) == Some(req) && req.toPk == k
    requires !env.raises && Admitted(states[i].table, req, env)
    ensures var s, s' := states[i], Handled(states[i], p, env);
            && Pending(s', k) == Pending(s, k) + [NewRow(s.table, p.pk, req, env)]
            && s'.log == s.log + [NewRow(s.table, p.pk, req, env)]
            && s'.responses == s.responses + [SendReply(p.pk, req)]
  {
    hide *;
    RunKeepsInv(honest, states, steps, i, k);
    SendStep(states[i], p, env, req, k);
  }

  lemma SendStep(s: State, p: Packet, env: Env, req: Req, k: Key)
    requires Inv(s, k) && p.cmd == SendRequest && ParseReq(p.bytes) == Some(req) && req.toPk == k
    requires !env.raises && Admitted(s.table, req, env)
    ensures var s' := Handled(s, p, env);
            && Pending(s', k) == Pending(s, k) + [NewRow(s.table, p.pk, req, env)]
            && s'.log == s.log + [NewRow(s.table, p.pk, req, env)]
            && s'.responses == s.responses + [SendReply(p.pk, req)]
  {
    var row, reply := NewRow(s.table, p.pk, req, env), SendReply(p.pk, req);
    hide *;
    SendOutcome(s.table, p, env, req);
    HandledStores(s, p, env, row, reply.packet);
    MarkIsOld(s, k);
    NewRowIs(s.table, p.pk, req, env);
    PendingAppend(s, Handled(s, p, env), k, row);
    SendReplyIs(p.pk, req);
  }

  lemma SendOutcome(t: Table, p: Packet, env: Env, req: Req)
    requires p.cmd == SendRequest && ParseReq(p.bytes) == Some(req) && !env.raises && Admitted(t, req, env)
    ensures var (t', out) := Handle(t, p, env);
            t'.rows == t.rows + [NewRow(t, p.pk, req, env)] && out == [SendReply(p.pk, req).packet]
  {
    hide Handle, Admitted, NumberBytes, ParseReq;
    SendHandled(t, p.pk, p.bytes, env);
    assert p == Packet(p.pk, SendRequest, p.bytes);
  }

  lemma NewRowIs(t: Table, fr: Key, req: Req, env: Env)
    requires Admitted(t, req, env)
    ensures NewRow(t, fr, req, env).toPk == req.toPk && NewRow(t, fr, req, env).id >= t.nextId
  {
  }

  lemma SendReplyIs(pk: Key, req: Req)
    ensures SendReply(pk, req) == Response(SendReply(pk, req).packet, [])
  {
  }

  lemma HandledStores(s: State, p: Packet, env: Env, row: Row, reply: Packet)
    requires Handle(s.table, p, env).0.rows == s.table.rows + [row] && Handle(s.table, p, env).1 == [reply]
    requires p.cmd == SendRequest
    ensures var s' := Handled(s, p, env);
            && s'.table.rows == s.table.rows + [row] && s'.clients == s.clients
            && s'.log == s.log + [row] && s'.responses == s.responses + [Response(reply, [])]
  {
    hide Handle;
  }

  lemma MarkIsOld(s: State, k: Key)
    requires Inv(s, k)
    ensures ClientOf(s, k).hwm < s.table.nextId
  {
  }

  lemma PendingAppend(s: State, s': State, k: Key, row: Row)
    requires s'.table.rows == s.table.rows + [row] && s'.clients == s.clients
    requires row.toPk == k && row.id > ClientOf(s, k).hwm
    ensures Pending(s', k) == Pending(s, k) + [row]
  {
    var h := ClientOf(s, k).hwm;
    assert ClientOf(s', k) == ClientOf(s, k);
    SparedAppend(s.table.rows, row, k, h);
    MailboxAppend(Spared(s.table.rows, k, h), row, k);
    hide Mailbox, Spared, ClientOf;
  }

  /** When an honest client receives the response of a pull whose listing did not raise, the
      batch is no longer pending and the rest still is, in its order; what left is what the
      client's transcript gained. */
  lemma PullDelivers(
    honest: set<Key>, states: seq<State>, steps: seq<Step>, i: nat, k: Key, bytes: Bytes, env: Env)
    requires Run(honest, states, steps) && i < |states| && k in honest && env.listRaisesAfter.None?
    ensures var s := states[i];
            var s1, batch := Handled(s, Packet(k, PullRequest, bytes), env), BatchOf(Mailbox(s.table.rows, k));
            && |s1.responses| == |s.responses| + 1
            && var r := s1.responses[|s.responses|];
               var s2 := Perform(s1, FriendReceives(r));
               && r.packet.pk == k && s2.table == s.table
               && Increasing(Pending(s2, k))
               && (forall x :: x in Pending(s2, k) <==> x in Pending(s, k) && x !in batch)
               && ClientOf(s2, k).seen + Messages(Pending(s2, k)) == ClientOf(s, k).seen + Messages(Pending(s, k))
  {
    RunKeepsInv(honest, states, steps, i, k);
    hide *;
    PullStepDelivers(states[i], k, bytes, env);
  }

  lemma PullStepDelivers(s: State, k: Key, bytes: Bytes, env: Env)
    requires Inv(s, k) && env.listRaisesAfter.None?
    ensures var s1, batch := Handled(s, Packet(k, PullRequest, bytes), env), BatchOf(Mailbox(s.table.rows, k));
            && |s1.responses| == |s.responses| + 1
            && var r := s1.responses[|s.responses|];
               var s2 := Perform(s1, FriendReceives(r));
               && r.packet.pk == k && s2.table == s.table
               && Increasing(Pending(s2, k))
               && (forall x :: x in Pending(s2, k) <==> x in Pending(s, k) && x !in batch)
               && ClientOf(s2, k).seen + Messages(Pending(s2, k)) == ClientOf(s, k).seen + Messages(Pending(s, k))
  {
    hide *;
    var s1, batch := Handled(s, Packet(k, PullRequest, bytes), env), BatchOf(Mailbox(s.table.rows, k));
    PullIsHandled(s, k, bytes, env);
    var r := s1.responses[|s.responses|];
    var s2 := Perform(s1, FriendReceives(r));
    MarkMoves(s1, r, k);
    PendingBeyond(s, s2, k, batch);
    SeenAndPending(s, k);
    SeenAndPending(s2, k);
  }

  lemma PullIsHandled(s: State, k: Key, bytes: Bytes, env: Env)
    requires Inv(s, k) && env.listRaisesAfter.None?
    ensures var s1, batch := Handled(s, Packet(k, PullRequest, bytes), env), BatchOf(Mailbox(s.table.rows, k));
            && Inv(s1, k) && ValidTable(s.table) && batch <= Mailbox(s.table.rows, k)
            && s1.table == s.table && s1.log == s.log && ClientOf(s1, k) == ClientOf(s, k)
            && |s1.responses| == |s.responses| + 1
            && var r := s1.responses[|s.responses|];
               r in s1.responses && r.packet.pk == k && r.packet.cmd == PullResponse && r.rows == batch
  {
    hide *;
    PullShape(s, k, bytes, env);
    PullKeepsInv(s, k, bytes, env);
    InvValid(s, k);
    SentIsPrefix(s.table, k, env);
  }

  lemma InvValid(s: State, k: Key)
    requires Inv(s, k)
    ensures ValidTable(s.table)
  {
  }

  lemma PullKeepsInv(s: State, k: Key, bytes: Bytes, env: Env)
    requires Inv(s, k)
    ensures Inv(Handled(s, Packet(k, PullRequest, bytes), env), k)
  {
    hide Inv, Perform;
    PullStep(s, Packet(k, PullRequest, bytes), env, k);
  }

  lemma PullShape(s: State, k: Key, bytes: Bytes, env: Env)
    ensures var s1 := Handled(s, Packet(k, PullRequest, bytes), env);
            && s1.table == s.table && s1.log == s.log && ClientOf(s1, k) == ClientOf(s, k)
            && |s1.responses| == |s.responses| + 1
            && var r := s1.responses[|s.responses|];
               r in s1.responses && r.packet.pk == k && r.packet.cmd == PullResponse && r.rows == Sent(s.table, k, env)
  {
    hide Mailbox, Sent, PullResult, P.EncodePullRes;
    var s1 := Handled(s, Packet(k, PullRequest, bytes), env);
    assert s1.responses[|s.responses|] in s1.responses;
  }

  /** Receiving a response moves the client's mark to the end of it. */
  lemma MarkMoves(s: State, r: Response, k: Key)
    requires Inv(s, k) && r in s.responses && r.packet.pk == k && r.packet.cmd == PullResponse
    ensures var s', h := Perform(s, FriendReceives(r)), ClientOf(s, k).hwm;
            && Inv(s', k) && s'.table == s.table && s'.log == s.log
            && ClientOf(s', k).hwm ==
               if r.rows != [] && r.rows[|r.rows| - 1].id > h then r.rows[|r.rows| - 1].id else h
  {
    ReceiveStep(s, r, k);
    LogFacts(s.table, s.log);
    AbsorbComplete(s.log, k, r.rows, ClientOf(s, k));
    hide LogHolds, GoneIsSeen, RequestsHold, Transcript, Absorb, Complete;
  }

  lemma PendingBeyond(s: State, s': State, k: Key, batch: seq<Row>)
    requires ValidTable(s.table) && s'.table == s.table && batch <= Mailbox(s.table.rows, k)
    requires var h := ClientOf(s, k).hwm;
             ClientOf(s', k).hwm ==
               if batch != [] && batch[|batch| - 1].id > h then batch[|batch| - 1].id else h
    ensures Increasing(Pending(s', k))
    ensures forall x :: x in Pending(s', k) <==> x in Pending(s, k) && x !in batch
  {
    var t, h, h' := s.table, ClientOf(s, k).hwm, ClientOf(s', k).hwm;
    hide Mailbox, Spared, ClientOf, DistinctLocalIds;
    MailboxExact(t, k);
    RowsPendingIncreasing(t.rows, k, h');
    PrefixMembers(Mailbox(t.rows, k), batch);
    forall x
      ensures x in Pending(s', k) <==> x in Pending(s, k) && x !in batch
    {
      PendingMembers(t, k, h, x);
      PendingMembers(t, k, h', x);
      if x in batch { LastIsGreatest(batch, x); }
    }
  }

  /** Connecting sends exactly the read notice, if there is anything to read. */
  lemma ConnectAnnounces(honest: set<Key>, states: seq<State>, steps: seq<Step>, i: nat, k: Key, env: Env)
    requires Run(honest, states, steps) && i < |states|
    ensures var s, mailbox := states[i], Mailbox(states[i].table.rows, k);
            var s' := Perform(s, FriendConnects(k, env));
            && s'.table == s.table
            && s'.responses == s.responses +
                 if env.raises || mailbox == [] then []
                 else [Response(Packet(k, ReadNoticeCmd, NumberBytes(8, mailbox[|mailbox| - 1].id)), [])]
  {
    hide Run;
    RunSound(honest, states, steps, i);
    ConnectHandled(states[i].table, k, env);
    hide Mailbox, NumberBytes, NoticeReply;
  }
}
