/** More properties of whole runs: provenance and order, read notices, rows too large to
    send, and pulls repeated without a delete between them. */
module Runs {
  import opened Wire
  import opened ProtoRequests
  import opened Table
  import opened Batch
  import opened Handlers
  import opened Protocol
  import opened ExactlyOnce
  import P = Proto

  // ------------------------------------------------------------ stored facts

  ghost predicate Sound(s: State) {
    LogHolds(s.table, s.log)
  }

  lemma StepSound(s: State, step: Step)
    requires Sound(s)
    ensures Sound(Perform(s, step))
  {
    hide ValidTable, Increasing, Recv, RecvReply, PullReply, NoticeReply;
    match step
    case ServerHandles(p, env) =>
      HandleValid(s.table, p, env);
      var t' := Handle(s.table, p, env).0;
      if t'.rows == s.table.rows {
        LogSame(s.table, s.log, t');
        assert Perform(s, step).log == s.log;
      } else if p.cmd == SendRequest {
        RecvShape(s.table, p, env);
        var r :| t'.rows == s.table.rows + [r] && Added(s.table, t') == [r] && r.Valid()
                 && s.table.nextId <= r.id < t'.nextId;
        LogGrows(s.table, s.log, t', r);
      } else {
        DeletedRows(s.table, p, env);
        assert Perform(s, step).log == s.log;
      }
    case _ =>
  }

  lemma DeletedRows(t: Table, p: Packet, env: Env)
    requires p.cmd == DelRequest
    ensures var t' := Handle(t, p, env).0;
            && t'.nextId == t.nextId && |t'.rows| <= |t.rows|
            && (forall r :: r in t'.rows ==> r in t.rows)
    ensures forall r :: r in t.rows && r !in Handle(t, p, env).0.rows ==> Reaches(ServerHandles(p, env), r)
  {
    if Handle(t, p, env).0 != t {
      SparedMembers(t.rows, p.pk, ToI64(ParseDelReq(p.bytes).value.lastMsgId));
    }
  }

  lemma InitSound(s: State)
    requires Init(s)
    ensures Sound(s) && s.log == []
  {
  }

  lemma {:induction false} RunSound(honest: set<Key>, states: seq<State>, steps: seq<Step>, i: nat)
    requires Run(honest, states, steps) && i < |states|
    ensures Sound(states[i])
  {
    hide *;
    RunStart(honest, states, steps);
    if i == 0 {
      InitSound(states[0]);
    } else {
      RunSound(honest, states, steps, i - 1);
      RunAt(honest, states, steps, i - 1);
      StepSound(states[i - 1], steps[i - 1]);
    }
  }

  // -------------------------------------------------------------- provenance

  /** The request packet asks for the row; the clock and the table give the rest. */
  predicate Asks(p: Packet, r: Row, env: Env, nextId: nat) {
    p.pk == r.frPk && p.cmd == SendRequest
    && ParseReq(p.bytes) == Some(Req(ToI64(r.localMsgId), r.toPk, r.content))
    && r.createTime == env.now && r.id == nextId + env.skip
  }

  lemma AddedIsAsked(t: Table, p: Packet, env: Env, r: Row)
    requires r in Added(t, Handle(t, p, env).0)
    ensures Asks(p, r, env, t.nextId)
  {
    hide Accepts;
    if p.cmd == DelRequest { DeletedRows(t, p, env); }
  }

  /** Step number `j` handled the request for the row and stored it. */
  ghost predicate StoredBy(states: seq<State>, steps: seq<Step>, j: nat, r: Row) {
    && j < |steps| && j + 1 < |states|
    && steps[j].ServerHandles? && Asks(steps[j].p, r, steps[j].env, states[j].table.nextId)
    && states[j + 1].table.rows == states[j].table.rows + [r]
  }

  /** The rows were stored one after the other, by steps before state `i`. */
  ghost predicate StoredInTurn(states: seq<State>, steps: seq<Step>, i: nat, rows: seq<Row>, at: seq<nat>) {
    && |at| == |rows|
    && (forall x :: 0 <= x < |at| ==> at[x] < i && StoredBy(states, steps, at[x], rows[x]))
    && (forall x, y :: 0 <= x < y < |at| ==> at[x] < at[y])
  }

  lemma StepStores(s: State, step: Step)
    requires Sound(s)
    ensures var s' := Perform(s, step);
            || s'.log == s.log
            || exists r :: s'.log == s.log + [r] && step.ServerHandles?
                           && Asks(step.p, r, step.env, s.table.nextId)
                           && s'.table.rows == s.table.rows + [r]
  {
    hide ValidTable, Increasing, Recv, RecvReply, PullReply, NoticeReply, Asks;
    if step.ServerHandles? {
      var t, t' := s.table, Handle(s.table, step.p, step.env).0;
      if step.p.cmd == SendRequest {
        RecvShape(t, step.p, step.env);
        if t'.rows != t.rows {
          var r :| t'.rows == t.rows + [r] && Added(t, t') == [r];
          AddedIsAsked(t, step.p, step.env, r);
        }
      } else if step.p.cmd == DelRequest {
        DeletedRows(t, step.p, step.env);
      }
    }
  }

  lemma {:induction false} RunStores(honest: set<Key>, states: seq<State>, steps: seq<Step>, i: nat)
    returns (at: seq<nat>)
    requires Run(honest, states, steps) && i < |states|
    ensures StoredInTurn(states, steps, i, states[i].log, at)
  {
    hide Run, Init, Sound, Enabled, Perform, Asks;
    RunStart(honest, states, steps);
    at := [];
    if i == 0 {
      InitSound(states[0]);
    } else {
      at := RunStores(honest, states, steps, i - 1);
      RunAt(honest, states, steps, i - 1);
      RunSound(honest, states, steps, i - 1);
      StepStores(states[i - 1], steps[i - 1]);
      if states[i].log != states[i - 1].log { at := at + [i - 1]; }
    }
  }

  /** Where the rows of a mailbox are in the log. */
  lemma {:induction false} MailboxIndices(log: seq<Row>, k: Key) returns (at: seq<nat>)
    ensures |at| == |Mailbox(log, k)|
    ensures forall x :: 0 <= x < |at| ==> at[x] < |log| && log[at[x]] == Mailbox(log, k)[x]
    ensures forall x, y :: 0 <= x < y < |at| ==> at[x] < at[y]
  {
    at := [];
    if log != [] {
      at := MailboxIndices(log[..|log| - 1], k);
      if log[|log| - 1].toPk == k { at := at + [|log| - 1]; }
    }
  }

  /** Step number `j` handled the request for this message to `k`, made by the friend whose
      key it names, and stored it under a new id with the time of the clock. */
  ghost predicate Answers(states: seq<State>, steps: seq<Step>, j: nat, k: Key, m: P.OfflineMessage) {
    && j < |steps| && j + 1 < |states|
    && steps[j].ServerHandles? && steps[j].p.cmd == SendRequest && steps[j].p.pk == m.frPk
    && m.toPk == k && ParseReq(steps[j].p.bytes) == Some(Req(m.localMsgId, k, m.content))
    && m.msgId == states[j].table.nextId + steps[j].env.skip && m.createTime == steps[j].env.now
    && exists r :: RowMessage(r) == m && states[j + 1].table.rows == states[j].table.rows + [r]
  }

  /** The messages were stored one after the other, by steps before state `i`. */
  ghost predicate AnsweredInTurn(
    states: seq<State>, steps: seq<Step>, i: nat, k: Key, seen: seq<P.OfflineMessage>, at: seq<nat>)
  {
    && |at| == |seen|
    && (forall a :: 0 <= a < |at| ==> at[a] < i && Answers(states, steps, at[a], k, seen[a]))
    && (forall a, b :: 0 <= a < b < |at| ==> at[a] < at[b])
  }

  lemma StoredByAnswers(states: seq<State>, steps: seq<Step>, j: nat, k: Key, r: Row)
    requires StoredBy(states, steps, j, r) && r.toPk == k
    ensures Answers(states, steps, j, k, RowMessage(r))
  {
  }

  /** What an honest client accepts has strictly increasing ids and comes in the order in
      which the server handled and stored it; each message was asked for, to this client
      and with this content, by the friend whose key it names, before it was accepted. */
  lemma OrderAndProvenance(honest: set<Key>, states: seq<State>, steps: seq<Step>, i: nat, k: Key)
    requires k in honest && Run(honest, states, steps) && i < |states|
    ensures var seen := ClientOf(states[i], k).seen;
            && (forall a, b :: 0 <= a < b < |seen| ==> seen[a].msgId < seen[b].msgId)
            && exists at :: AnsweredInTurn(states, steps, i, k, seen, at)
  {
    hide *;
    RunKeepsInv(honest, states, steps, i, k);
    SeenInLog(states[i], k);
    var at := RunStores(honest, states, steps, i);
    var index := MailboxIndices(states[i].log, k);
    SeenInTurn(states, steps, i, k, at, index);
  }

  lemma SeenInLog(s: State, k: Key)
    requires Inv(s, k)
    ensures var m, seen := Mailbox(s.log, k), ClientOf(s, k).seen;
            && |seen| <= |m| && (forall a :: 0 <= a < |seen| ==> seen[a] == RowMessage(m[a]))
            && (forall a :: 0 <= a < |m| ==> m[a].toPk == k)
            && (forall a, b :: 0 <= a < b < |seen| ==> seen[a].msgId < seen[b].msgId)
  {
    MailboxMembers(s.log, k);
    MailboxIncreasing(s.log, k);
    hide Mailbox, ValidTable;
  }

  lemma SeenInTurn(states: seq<State>, steps: seq<Step>, i: nat, k: Key, at: seq<nat>, index: seq<nat>)
    requires i < |states| && StoredInTurn(states, steps, i, states[i].log, at)
    requires var log, m, seen := states[i].log, Mailbox(states[i].log, k), ClientOf(states[i], k).seen;
             && |seen| <= |m| == |index| && (forall a :: 0 <= a < |seen| ==> seen[a] == RowMessage(m[a]))
             && (forall a :: 0 <= a < |m| ==> m[a].toPk == k && index[a] < |log| && log[index[a]] == m[a])
             && (forall a, b :: 0 <= a < b < |m| ==> index[a] < index[b])
    ensures exists handled :: AnsweredInTurn(states, steps, i, k, ClientOf(states[i], k).seen, handled)
  {
    hide StoredBy, Answers, Mailbox, RowMessage, ClientOf;
    var m, seen := Mailbox(states[i].log, k), ClientOf(states[i], k).seen;
    var handled := seq(|seen|, a requires 0 <= a < |seen| => at[index[a]]);
    forall a | 0 <= a < |seen|
      ensures handled[a] < i && Answers(states, steps, handled[a], k, seen[a])
    {
      StoredByAnswers(states, steps, handled[a], k, m[a]);
    }
    assert AnsweredInTurn(states, steps, i, k, seen, handled);
  }

  // ----------------------------------------------------- replied but not stored

  /** The request was answered, but no row holds its message. */
  ghost predicate RepliedNotStored(s: State, fr: Key, req: Req) {
    && !Stored(s.table, fr, req)
    && exists r :: r in s.responses && [r.packet] == RecvReply(fr, EncodeReq(req))
  }

  /** Some run ends with the friend's request answered and its message not stored. */
  ghost predicate EndsRepliedNotStored(honest: set<Key>, fr: Key, req: Req) {
    exists states, steps :: Run(honest, states, steps) && RepliedNotStored(states[|steps|], fr, req)
  }

  lemma AdmittedRoundTrip(req: Req)
    requires |req.toPk| <= KEY_SIZE && |req.cryptoMessage| <= MAX_CONTENT
    ensures ParseReq(EncodeReq(req)) == Some(req)
  {
    hide ParseReq, EncodeReq, P.VarintFieldSize, P.BytesFieldSize;
    VarintFieldBounds(ToU64(req.localMsgId));
    BytesFieldBounds(req.toPk);
    BytesFieldBounds(req.cryptoMessage);
    ReqRoundTrip(req);
  }

  /** It happens: two friends send with the same local id. The server stores the message
      of the first and answers both, whatever the message is. */
  lemma ShutOut(honest: set<Key>, a: Key, b: Key, req: Req)
    requires a != b && req.localMsgId >= 0
    requires |req.toPk| <= KEY_SIZE && |req.cryptoMessage| <= MAX_CONTENT
    ensures EndsRepliedNotStored(honest, b, req)
  {
    var p, q := Packet(a, SendRequest, EncodeReq(req)), Packet(b, SendRequest, EncodeReq(req));
    var env := Env(0, false, 0, None, false);
    var s0 := State(Table([], 1), [], {}, [], map[]);
    hide *;
    var s1 := Perform(s0, FriendSends(p));
    var s2 := Perform(s1, FriendSends(q));
    var s3 := Perform(s2, ServerHandles(p, env));
    var s4 := Perform(s3, ServerHandles(q, env));
    TwoSends(s0, p, q);
    AfterTwoSends(s2, p, q, env, req);
    FourSteps(honest, s0, s1, s2, s3, s4, p, q, env);
    EndOfRun(honest, [s0, s1, s2, s3, s4],
             [FriendSends(p), FriendSends(q), ServerHandles(p, env), ServerHandles(q, env)], b, req);
  }

  lemma EndOfRun(honest: set<Key>, states: seq<State>, steps: seq<Step>, fr: Key, req: Req)
    requires Run(honest, states, steps) && RepliedNotStored(states[|steps|], fr, req)
    ensures EndsRepliedNotStored(honest, fr, req)
  {
  }

  lemma AfterTwoSends(s: State, p: Packet, q: Packet, env: Env, req: Req)
    requires s.table == Table([], 1) && s.log == [] && s.responses == [] && q in s.requests
    requires p.pk != q.pk && p.cmd == SendRequest && q.cmd == SendRequest
    requires p.bytes == EncodeReq(req) && q.bytes == EncodeReq(req) && env == Env(0, false, 0, None, false)
    requires req.localMsgId >= 0 && |req.toPk| <= KEY_SIZE && |req.cryptoMessage| <= MAX_CONTENT
    ensures var s' := Perform(s, ServerHandles(p, env));
            q in s'.requests && RepliedNotStored(Perform(s', ServerHandles(q, env)), q.pk, req)
  {
    hide *;
    AdmittedRoundTrip(req);
    HandlesFirst(s, p, env, req);
    var s' := Perform(s, ServerHandles(p, env));
    HandlesSecond(s', p.pk, q, env, req);
    LastAnswered(Perform(s', ServerHandles(q, env)), s'.responses, q.pk, req);
  }

  lemma TwoSends(s: State, p: Packet, q: Packet)
    requires s == State(Table([], 1), [], {}, [], map[])
    ensures Init(s)
    ensures Perform(Perform(s, FriendSends(p)), FriendSends(q)) == s.(requests := {p, q})
  {
  }

  lemma LastAnswered(s: State, before: seq<Response>, fr: Key, req: Req)
    requires s.responses == before + WithRows(RecvReply(fr, EncodeReq(req)), [])
    requires ParseReq(EncodeReq(req)).Some? && !Stored(s.table, fr, req)
    ensures RepliedNotStored(s, fr, req)
  {
    hide ParseReq, EncodeReq, Stored;
    var r := s.responses[|before|];
    assert r in s.responses && [r.packet] == RecvReply(fr, EncodeReq(req));
  }

  lemma FourSteps(
    honest: set<Key>, s0: State, s1: State, s2: State, s3: State, s4: State, p: Packet, q: Packet, env: Env)
    requires Init(s0) && p.cmd == SendRequest && q.cmd == SendRequest
    requires p in s2.requests && q in s3.requests
    requires s1 == Perform(s0, FriendSends(p)) && s2 == Perform(s1, FriendSends(q))
    requires s3 == Perform(s2, ServerHandles(p, env)) && s4 == Perform(s3, ServerHandles(q, env))
    ensures Run(honest, [s0, s1, s2, s3, s4],
                [FriendSends(p), FriendSends(q), ServerHandles(p, env), ServerHandles(q, env)])
  {
    hide Init, Perform;
  }

  lemma HandlesFirst(s: State, p: Packet, env: Env, req: Req)
    requires s.table == Table([], 1) && s.log == [] && s.responses == []
    requires req.localMsgId >= 0 && |req.toPk| <= KEY_SIZE && |req.cryptoMessage| <= MAX_CONTENT
    requires p.cmd == SendRequest && ParseReq(p.bytes) == Some(req) && env == Env(0, false, 0, None, false)
    ensures var row := Row(1, req.localMsgId, p.pk, req.toPk, req.cryptoMessage, 0);
            Perform(s, ServerHandles(p, env)) ==
            s.(table := Table([row], 2), log := [row], responses := WithRows(RecvReply(p.pk, p.bytes), []))
  {
    hide ParseReq, RecvReply;
    assert !LocalIdTaken(s.table, ToU64(req.localMsgId));
    hide LocalIdTaken;
  }

  lemma HandlesSecond(s: State, a: Key, q: Packet, env: Env, req: Req)
    requires a != q.pk && req.localMsgId >= 0
    requires s.table == Table([Row(1, req.localMsgId, a, req.toPk, req.cryptoMessage, 0)], 2)
    requires q.cmd == SendRequest && ParseReq(q.bytes) == Some(req) && env == Env(0, false, 0, None, false)
    ensures Perform(s, ServerHandles(q, env)) ==
            s.(responses := s.responses + WithRows(RecvReply(q.pk, q.bytes), []))
    ensures !Stored(s.table, q.pk, req)
  {
    hide ParseReq, RecvReply;
    assert s.table.rows[0].localMsgId == ToU64(req.localMsgId);
    assert LocalIdTaken(s.table, ToU64(req.localMsgId));
    hide LocalIdTaken;
    assert s.log + Added(s.table, s.table) == s.log;
  }

  // ------------------------------------------------------------ read notices

  predicate IsNotice(p: Packet, k: Key) {
    p.pk == k && p.cmd == ReadNoticeCmd
  }

  function NoticeId(p: Packet): uint64 {
    match ParseReadNotice(p.bytes)
    case None => 0
    case Some(n) => n.latestMsgId
  }

  /** On connect a notice is sent exactly when the mailbox is not empty (unless the query
      raises), and it carries the greatest id there. */
  lemma NoticeIff(t: Table, k: Key, env: Env)
    requires ValidTable(t)
    ensures NoticeReply(t, k, env) != [] <==> !env.raises && Mailbox(t.rows, k) != []
    ensures forall p :: p in NoticeReply(t, k, env) ==>
              IsNotice(p, k) && NoticeId(p) == LatestId(t.rows, k) > 0
    ensures |NoticeReply(t, k, env)| <= 1
  {
    LatestIdIsMax(t, k);
    MailboxMembers(t.rows, k);
    assert Mailbox(t.rows, k) != [] ==> Mailbox(t.rows, k)[0] in t.rows;
    ReadNoticeRoundTrip(ReadNotice(LatestId(t.rows, k)));
  }

  /** Notices sent so far are in order, and the next one cannot be smaller. */
  ghost predicate NoticesInOrder(responses: seq<Response>, k: Key, latest: uint64, nextId: nat) {
    && (forall i, j :: 0 <= i < j < |responses| && IsNotice(responses[i].packet, k) && IsNotice(responses[j].packet, k)
          ==> NoticeId(responses[i].packet) <= NoticeId(responses[j].packet))
    && (forall r :: r in responses && IsNotice(r.packet, k) ==>
          NoticeId(r.packet) < nextId && (latest != 0 ==> NoticeId(r.packet) <= latest))
  }

  ghost predicate NoticesHold(s: State, k: Key) {
    NoticesInOrder(s.responses, k, LatestId(s.table.rows, k), s.table.nextId)
  }

  /** The latest id of a mailbox never falls, except to none. */
  lemma LatestNeverFalls(s: State, step: Step, k: Key)
    requires Sound(s)
    ensures var s' := Perform(s, step);
            var old', new' := LatestId(s.table.rows, k), LatestId(s'.table.rows, k);
            new' == 0 || new' == old' || new' >= s.table.nextId
    ensures s.table.nextId <= Perform(s, step).table.nextId
  {
    hide Mailbox, Spared, Recv, RecvReply, PullReply, NoticeReply, Increasing;
    var s' := Perform(s, step);
    var t, t' := s.table, s'.table;
    if step.ServerHandles? {
      StepSound(s, step);
      HandleValid(t, step.p, step.env);
      LatestIdIsMax(t, k);
      LatestIdIsMax(t', k);
      hide LatestId, ValidTable;
      if step.p.cmd == SendRequest {
        RecvShape(t, step.p, step.env);
        if t'.rows != t.rows {
          var r :| t'.rows == t.rows + [r] && r.Valid() && t.nextId <= r.id;
          assert forall x :: x in t'.rows <==> x in t.rows || x == r;
        }
      } else if step.p.cmd == DelRequest {
        LatestAfterDelete(t, step.p, step.env, k);
      }
    }
  }

  lemma LatestAfterDelete(t: Table, p: Packet, env: Env, k: Key)
    requires ValidTable(t) && p.cmd == DelRequest
    ensures var t' := Handle(t, p, env).0;
            LatestId(t'.rows, k) == 0 || LatestId(t'.rows, k) == LatestId(t.rows, k)
  {
    var t' := Handle(t, p, env).0;
    if t' != t {
      HandleValid(t, p, env);
      LatestIdIsMax(t, k);
      LatestIdIsMax(t', k);
      SparedMembers(t.rows, p.pk, ToI64(ParseDelReq(p.bytes).value.lastMsgId));
      hide LatestId, Spared, ValidTable;
    }
  }

  lemma StepNotices(s: State, step: Step, k: Key)
    requires Sound(s) && NoticesHold(s, k)
    ensures NoticesHold(Perform(s, step), k)
  {
    LatestNeverFalls(s, step, k);
    var s' := Perform(s, step);
    var latest := LatestId(s.table.rows, k);
    NoticesLater(s.responses, k, latest, s.table.nextId, LatestId(s'.table.rows, k), s'.table.nextId);
    match step
    case FriendConnects(pk, env) =>
      NoticeIff(s.table, pk, env);
      LatestIdIsMax(s.table, k);
      NoticesAppend(s.responses, WithRows(NoticeReply(s.table, pk, env), []), k, latest, s.table.nextId);
    case ServerHandles(p, env) =>
      ReplyCmds(s.table, p, env, k);
      NoticesAppend(s.responses, WithRows(Handle(s.table, p, env).1, SentRows(s.table, p, env)), k,
                    LatestId(s'.table.rows, k), s'.table.nextId);
    case _ =>
  }

  lemma NoticesLater(responses: seq<Response>, k: Key, latest: uint64, nextId: nat, latest': uint64, nextId': nat)
    requires NoticesInOrder(responses, k, latest, nextId)
    requires latest' == 0 || latest' == latest || latest' >= nextId
    requires nextId <= nextId'
    ensures NoticesInOrder(responses, k, latest', nextId')
  {
    hide NoticeId;
  }

  lemma NoticesAppend(responses: seq<Response>, out: seq<Response>, k: Key, latest: uint64, nextId: nat)
    requires NoticesInOrder(responses, k, latest, nextId)
    requires |out| <= 1
    requires forall r :: r in out && IsNotice(r.packet, k) ==> NoticeId(r.packet) == latest < nextId && latest != 0
    ensures NoticesInOrder(responses + out, k, latest, nextId)
  {
    hide NoticeId, IsNotice;
    assert forall i :: 0 <= i < |responses| ==> (responses + out)[i] == responses[i];
    assert forall r :: r in responses + out <==> r in responses || r in out;
  }

  lemma ReplyCmds(t: Table, p: Packet, env: Env, k: Key)
    ensures |Handle(t, p, env).1| <= 1
    ensures forall i :: 0 <= i < |Handle(t, p, env).1| ==> !IsNotice(Handle(t, p, env).1[i], k)
  {
  }

  lemma InitNotices(s: State, k: Key)
    requires Init(s)
    ensures NoticesHold(s, k)
  {
  }

  lemma {:induction false} RunNotices(honest: set<Key>, states: seq<State>, steps: seq<Step>, i: nat, k: Key)
    requires Run(honest, states, steps) && i < |states|
    ensures NoticesHold(states[i], k)
  {
    hide *;
    RunStart(honest, states, steps);
    if i == 0 {
      InitNotices(states[0], k);
    } else {
      RunNotices(honest, states, steps, i - 1, k);
      RunAt(honest, states, steps, i - 1);
      RunSound(honest, states, steps, i - 1);
      StepNotices(states[i - 1], steps[i - 1], k);
    }
  }

  /** The ids in the notices sent to one key never decrease, for any client. */
  lemma NoticesNeverDecrease(honest: set<Key>, states: seq<State>, steps: seq<Step>, n: nat, k: Key, i: nat, j: nat)
    requires Run(honest, states, steps) && n < |states|
    requires i < j < |states[n].responses|
    requires IsNotice(states[n].responses[i].packet, k) && IsNotice(states[n].responses[j].packet, k)
    ensures NoticeId(states[n].responses[i].packet) <= NoticeId(states[n].responses[j].packet)
  {
    RunNotices(honest, states, steps, n, k);
  }

  // ------------------------------------------------------------ head of line

  /** The step is a delete that reaches the row. */
  predicate Reaches(step: Step, b: Row) {
    && step.ServerHandles? && step.p.cmd == DelRequest && step.p.pk == b.toPk
    && ParseDelReq(step.p.bytes).Some? && b.id <= ToI64(ParseDelReq(step.p.bytes).value.lastMsgId)
  }

  /** A row too large for a response is never sent, nor any row after it. */
  lemma OversizeBlocksPull(t: Table, k: Key, env: Env, b: Row)
    requires ValidTable(t) && b in t.rows && b.toPk == k && RowSize(b) >= MAX_SIZE
    ensures forall r :: r in Sent(t, k, env) ==> r.id < b.id
  {
    hide RowSize, Mailbox, Sent, BatchOf;
    var m := Mailbox(t.rows, k);
    MailboxMembers(t.rows, k);
    MailboxIncreasing(t.rows, k);
    SentIsPrefix(t, k, env);
    hide ValidTable;
    var i :| 0 <= i < |m| && m[i] == b;
    OversizeNotInBatch(m, i);
    var sent := Sent(t, k, env);
    forall r | r in sent
      ensures r.id < b.id
    {
      var j :| 0 <= j < |sent| && sent[j] == r;
      assert m[j] == r;
    }
  }

  /** A row at the head is in the next pull if and only if it fits on its own; content of
      up to 858 bytes always does. */
  lemma HeadIsPulledIff(t: Table, k: Key, env: Env)
    requires ValidTable(t) && Mailbox(t.rows, k) != [] && env.listRaisesAfter.None?
    ensures var b := Mailbox(t.rows, k)[0];
            && (b in Sent(t, k, env) <==> RowSize(b) < MAX_SIZE)
            && (|b.content| <= 858 ==> b in Sent(t, k, env))
            && (|b.content| >= 887 ==> Sent(t, k, env) == [])
  {
    hide RowSize;
    var m := Mailbox(t.rows, k);
    SentIsPrefix(t, k, env);
    HeadIsSent(m);
    MailboxFullKeys(t, k);
    RowSizeBounds(m[0]);
    hide Mailbox, BatchOf;
  }

  lemma StepKeepsRow(s: State, step: Step, b: Row)
    requires b in s.table.rows && !Reaches(step, b)
    ensures b in Perform(s, step).table.rows
  {
    hide Reaches, RecvReply, PullReply, NoticeReply;
    if step.ServerHandles? && step.p.cmd == DelRequest {
      DeletedRows(s.table, step.p, step.env);
    }
  }

  /** The bytes decode to a response that holds only messages before `b`. */
  predicate EndsBefore(bytes: Bytes, b: Row) {
    match P.ParsePullRes(bytes)
    case None => false
    case Some(res) => forall i :: 0 <= i < |res.msgs| ==> res.msgs[i].msgId < b.id
  }

  /** So do all pull responses to `k` from number `from` on. */
  ghost predicate StopBefore(responses: seq<Response>, from: nat, k: Key, b: Row) {
    && from <= |responses|
    && forall x :: from <= x < |responses| ==>
         responses[x].packet.pk == k && responses[x].packet.cmd == PullResponse ==>
           EndsBefore(responses[x].packet.bytes, b)
  }

  lemma StopBeforeNothing(responses: seq<Response>, k: Key, b: Row)
    ensures StopBefore(responses, |responses|, k, b)
  {
  }

  lemma StopBeforeAppend(old': seq<Response>, new': seq<Response>, from: nat, k: Key, b: Row)
    requires old' <= new' && StopBefore(old', from, k, b) && StopBefore(new', |old'|, k, b)
    ensures StopBefore(new', from, k, b)
  {
    assert forall x :: 0 <= x < |old'| ==> new'[x] == old'[x];
  }

  /** Over any stretch of a run without a delete that reaches it, an oversize row stays,
      and the bytes of every response to its recipient decode to messages before it. */
  lemma {:induction false} OversizeBlocksRun(
    honest: set<Key>, states: seq<State>, steps: seq<Step>, i: nat, j: nat, k: Key, b: Row)
    requires Run(honest, states, steps) && i <= j < |states|
    requires b in states[i].table.rows && b.toPk == k && RowSize(b) >= MAX_SIZE
    requires forall x :: i <= x < j ==> !Reaches(steps[x], b)
    ensures b in states[j].table.rows
    ensures StopBefore(states[j].responses, |states[i].responses|, k, b)
    decreases j
  {
    hide *;
    RunStart(honest, states, steps);
    if i == j {
      StopBeforeNothing(states[i].responses, k, b);
    } else {
      OversizeBlocksRun(honest, states, steps, i, j - 1, k, b);
      RunSound(honest, states, steps, j - 1);
      RunAt(honest, states, steps, j - 1);
      assert !Reaches(steps[j - 1], b);
      StepKeepsRow(states[j - 1], steps[j - 1], b);
      NewResponses(states[j - 1], steps[j - 1], k, b);
      StopBeforeAppend(states[j - 1].responses, states[j].responses, |states[i].responses|, k, b);
    }
  }

  lemma NewResponses(s: State, step: Step, k: Key, b: Row)
    requires Sound(s) && b in s.table.rows && b.toPk == k && RowSize(b) >= MAX_SIZE
    ensures s.responses <= Perform(s, step).responses
    ensures StopBefore(Perform(s, step).responses, |s.responses|, k, b)
  {
    hide RowSize, Sent, PullResult, P.EncodePullRes, EndsBefore;
    match step
    case ServerHandles(p, env) =>
      if p.cmd == PullRequest && p.pk == k {
        PulledEndsBefore(s.table, k, env, b);
      } else {
        OtherReplies(s.table, p, env);
        hide Handle;
      }
    case FriendConnects(pk, env) =>
      NoticeCmd(s.table, pk, env);
    case _ =>
  }

  lemma PulledEndsBefore(t: Table, k: Key, env: Env, b: Row)
    requires ValidTable(t) && b in t.rows && b.toPk == k && RowSize(b) >= MAX_SIZE
    ensures EndsBefore(PullReply(t, k, env)[0].bytes, b)
  {
    OversizeBlocksPull(t, k, env, b);
    PulledCarries(t, k, env);
    hide RowSize, Sent, P.EncodePullRes, P.ParsePullRes, PullResult, ValidTable;
    var rows := Sent(t, k, env);
    assert forall i :: 0 <= i < |rows| ==> rows[i] in rows;
  }

  lemma OtherReplies(t: Table, p: Packet, env: Env)
    ensures forall i :: 0 <= i < |Handle(t, p, env).1| ==>
              Handle(t, p, env).1[i].pk == p.pk && (p.cmd != PullRequest ==> Handle(t, p, env).1[i].cmd != PullResponse)
  {
  }

  // ------------------------------------------------------------------ re-pull

  predicate DeletesFor(step: Step, k: Key) {
    step.ServerHandles? && step.p.cmd == DelRequest && step.p.pk == k
  }

  lemma StepGrowsMailbox(s: State, step: Step, k: Key)
    requires Sound(s) && !DeletesFor(step, k)
    ensures Mailbox(s.table.rows, k) <= Mailbox(Perform(s, step).table.rows, k)
  {
    hide Mailbox, RecvReply, PullReply, NoticeReply;
    if step.ServerHandles? {
      var t, p, env := s.table, step.p, step.env;
      var t' := Handle(t, p, env).0;
      if p.cmd == SendRequest {
        RecvShape(t, p, env);
        if t'.rows != t.rows {
          var r :| t'.rows == t.rows + [r];
          MailboxAppend(t.rows, r, k);
        }
      } else if p.cmd == DelRequest && t' != t {
        DeleteSparesOthers(t.rows, p.pk, ToI64(ParseDelReq(p.bytes).value.lastMsgId), k);
      }
    }
  }

  lemma PrefixOfPrefix(a: seq<Row>, b: seq<Row>, c: seq<Row>)
    requires a <= b <= c
    ensures a <= c
  {
  }

  lemma {:induction false} RunGrowsMailbox(
    honest: set<Key>, states: seq<State>, steps: seq<Step>, i: nat, j: nat, k: Key)
    requires Run(honest, states, steps) && i <= j < |states|
    requires forall x :: i <= x < j ==> !DeletesFor(steps[x], k)
    ensures Mailbox(states[i].table.rows, k) <= Mailbox(states[j].table.rows, k)
    decreases j
  {
    hide *;
    RunStart(honest, states, steps);
    if i < j {
      RunGrowsMailbox(honest, states, steps, i, j - 1, k);
      RunSound(honest, states, steps, j - 1);
      RunAt(honest, states, steps, j - 1);
      StepGrowsMailbox(states[j - 1], steps[j - 1], k);
      PrefixOfPrefix(
        Mailbox(states[i].table.rows, k), Mailbox(states[j - 1].table.rows, k), Mailbox(states[j].table.rows, k));
    }
  }

  /** With no delete for a key between two complete pulls, the first batch is a prefix of
      the second, and batch length plus left_count does not decrease. */
  lemma RePullStable(honest: set<Key>, states: seq<State>, steps: seq<Step>, i: nat, j: nat, k: Key, e: Env, f: Env)
    requires Run(honest, states, steps) && i <= j < |states|
    requires forall x :: i <= x < j ==> !DeletesFor(steps[x], k)
    requires f.listRaisesAfter.None? && !e.countRaises && !f.countRaises
    requires |Mailbox(states[j].table.rows, k)| < TWO_32
    ensures Sent(states[i].table, k, e) <= Sent(states[j].table, k, f)
    ensures PullResult(states[i].table, k, e).leftCount + |Sent(states[i].table, k, e)|
            <= PullResult(states[j].table, k, f).leftCount + |Sent(states[j].table, k, f)|
  {
    RunGrowsMailbox(honest, states, steps, i, j, k);
    RunSound(honest, states, steps, i);
    RunSound(honest, states, steps, j);
    RePull(states[i].table, states[j].table, k, e, f);
  }

  lemma RePull(t: Table, t': Table, k: Key, e: Env, f: Env)
    requires ValidTable(t) && ValidTable(t')
    requires Mailbox(t.rows, k) <= Mailbox(t'.rows, k) && |Mailbox(t'.rows, k)| < TWO_32
    requires f.listRaisesAfter.None? && !e.countRaises && !f.countRaises
    ensures Sent(t, k, e) <= Sent(t', k, f)
    ensures PullResult(t, k, e).leftCount + |Sent(t, k, e)| <= PullResult(t', k, f).leftCount + |Sent(t', k, f)|
  {
    hide Mailbox, BatchOf, ValidTable, Sent, PullResult;
    SentIsPrefix(t, k, e);
    SentIsPrefix(t', k, f);
    BatchGrows(Mailbox(t.rows, k), Mailbox(t'.rows, k));
    LeftCountIs(t, k, e);
    LeftCountIs(t', k, f);
  }
}
