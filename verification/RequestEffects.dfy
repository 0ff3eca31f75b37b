/** What the bot does with each packet, in terms of the table's columns, the clock and the
    bytes on the wire. */
module RequestEffects {
  import opened Wire
  import opened ProtoRequests
  import opened MessageBytes
  import opened Table
  import opened Batch
  import opened Handlers
  import P = Proto

  /** A send request stores its message under the sender's key and the time of the clock,
      exactly if the statement does not raise and the table admits it; every request that
      parses is answered with its local id, and nothing else is. */
  lemma SendHandled(t: Table, fr: Key, bytes: Bytes, env: Env)
    ensures var (t', out) := Handle(t, Packet(fr, SendRequest, bytes), env);
            match ParseReq(bytes)
            case None => t' == t && out == []
            case Some(req) =>
              && out == [Packet(fr, SendResponse, NumberBytes(8, ToU64(req.localMsgId)))]
              && t'.rows == (if !env.raises && Admitted(t, req, env) then
                               t.rows + [Row(t.nextId + env.skip, req.localMsgId,
                                             fr, req.toPk, req.cryptoMessage, env.now)]
                             else t.rows)
              && t'.nextId == if env.raises then t.nextId
                              else if Admitted(t, req, env) then t.nextId + env.skip + 1 else t.nextId + env.skip
  {
    hide ParseReq, EncodeReq, Insert, NumberBytes;
    match ParseReq(bytes)
    case None =>
    case Some(req) =>
      ReplyBytes(req.localMsgId);
      InsertExact(t, fr, req.toPk, req.cryptoMessage, ToU64(req.localMsgId), env.now, env.skip);
  }

  lemma ReplyBytes(id: int64)
    ensures EncodeReq(Req(id, [], [])) == NumberBytes(8, ToU64(id))
  {
    ReplyIsRes(id);
    EncodeNumberBytes(id, 0);
  }

  /** The message a row is sent as. */
  predicate IsMessageOf(m: P.OfflineMessage, r: Row) {
    && m.localMsgId == r.localMsgId && m.msgId == r.id && m.createTime == r.createTime
    && m.frPk == r.frPk && m.toPk == r.toPk && m.content == r.content
  }

  /** The rows of the mailbox that encode to fewer than 1024 bytes together, or those before
      the listing raised, and what is left of the count. */
  predicate IsAnswer(res: P.PullRes, mailbox: seq<Row>, env: Env) {
    var n := |res.msgs|;
    && n <= |mailbox| && FillsResponse(mailbox, n, env)
    && (forall i :: 0 <= i < n ==> IsMessageOf(res.msgs[i], mailbox[i]))
    && res.leftCount == ((if env.countRaises then 0 else |mailbox|) - n) % 0x1_0000_0000
  }

  predicate FillsResponse(mailbox: seq<Row>, n: nat, env: Env)
    requires n <= |mailbox|
  {
    && |Encodings(mailbox[..n])| < 1024
    && (n < |mailbox| && env.listRaisesAfter != Some(n) ==> |Encodings(mailbox[..n + 1])| >= 1024)
    && (env.listRaisesAfter.Some? ==> n <= env.listRaisesAfter.value)
  }

  /** A pull request changes nothing and is answered with one pull response to its sender. */
  lemma PullHandled(t: Table, pk: Key, bytes: Bytes, env: Env)
    requires ValidTable(t)
    ensures var (t', out) := Handle(t, Packet(pk, PullRequest, bytes), env);
            && t' == t
            && |out| == 1 && out[0].pk == pk && out[0].cmd == PullResponse
            && P.ParsePullRes(out[0].bytes).Some?
            && IsAnswer(P.ParsePullRes(out[0].bytes).value, Mailbox(t.rows, pk), env)
  {
    hide IsAnswer, ValidTable, Mailbox, PullResult, P.ParsePullRes, P.EncodePullRes;
    PullResponseDecodes(t, pk, env);
    PullResultIsAnswer(t, pk, env);
  }

  lemma PullResultIsAnswer(t: Table, pk: Key, env: Env)
    requires ValidTable(t)
    ensures IsAnswer(PullResult(t, pk, env), Mailbox(t.rows, pk), env)
  {
    var mailbox, sent := Mailbox(t.rows, pk), Sent(t, pk, env);
    hide *;
    SentFills(t, pk, env);
    PullResultMessages(t, pk, env);
    PullResultCount(t, pk, env);
    CountModulo(|mailbox|, |sent|);
    MailboxFullKeys(t, pk);
    AnswerOf(PullResult(t, pk, env), mailbox, sent, env);
  }

  lemma AnswerOf(res: P.PullRes, mailbox: seq<Row>, sent: seq<Row>, env: Env)
    requires sent <= mailbox && FillsResponse(mailbox, |sent|, env) && FullKeys(mailbox)
    requires res.msgs == Messages(sent)
    requires res.leftCount == ((if env.countRaises then 0 else |mailbox| % TWO_32) - |sent|) % TWO_32
    requires (|mailbox| % TWO_32 - |sent|) % TWO_32 == (|mailbox| - |sent|) % 0x1_0000_0000
    ensures IsAnswer(res, mailbox, env)
  {
    hide FillsResponse;
    forall i | 0 <= i < |sent|
      ensures IsMessageOf(res.msgs[i], mailbox[i])
    {
      assert mailbox[i].Valid();
    }
    hide FullKeys, Messages, IsMessageOf;
  }

  lemma PullResultMessages(t: Table, pk: Key, env: Env)
    ensures PullResult(t, pk, env).msgs == Messages(Sent(t, pk, env))
  {
    hide BatchOf, Listed;
  }

  lemma CountModulo(all: nat, n: nat)
    ensures (all % TWO_32 - n) % TWO_32 == (all - n) % 0x1_0000_0000
  {
    var q, r := all / TWO_32, all % TWO_32;
    assert all - n == TWO_32 * q + (r - n);
  }

  lemma SentFills(t: Table, pk: Key, env: Env)
    requires ValidTable(t)
    ensures var sent, mailbox := Sent(t, pk, env), Mailbox(t.rows, pk);
            sent <= mailbox && FillsResponse(mailbox, |sent|, env)
  {
    var mailbox, sent := Mailbox(t.rows, pk), Sent(t, pk, env);
    hide *;
    SentIsPrefix(t, pk, env);
    CutFills(mailbox, BatchOf(mailbox), sent, env);
  }

  lemma CutFills(mailbox: seq<Row>, batch: seq<Row>, sent: seq<Row>, env: Env)
    requires batch == BatchOf(mailbox) && sent <= batch <= mailbox
    requires env.listRaisesAfter.None? ==> sent == batch
    requires env.listRaisesAfter.Some? ==>
               var k := env.listRaisesAfter.value; sent == if k < |batch| then batch[..k] else batch
    ensures FillsResponse(mailbox, |sent|, env)
  {
    hide BatchOf, Encodings;
    BatchByBytes(mailbox, |batch|);
    ShorterEncodings(mailbox, |sent|, |batch|);
  }

  lemma {:induction false} ShorterEncodings(rows: seq<Row>, n: nat, k: nat)
    requires n <= k <= |rows|
    ensures |Encodings(rows[..n])| <= |Encodings(rows[..k])|
    decreases k
  {
    hide Encodings;
    if n < k {
      ShorterEncodings(rows, n, k - 1);
      assert rows[..k][..k - 1] == rows[..k - 1];
      LastEncoding(rows[..k]);
    }
  }

  /** A delete request removes the sender's own rows up to its id, exactly if it parses,
      the statement does not raise and the id is below 2^63; it is not answered. */
  lemma DelHandled(t: Table, pk: Key, bytes: Bytes, env: Env)
    requires ValidTable(t)
    ensures var (t', out) := Handle(t, Packet(pk, DelRequest, bytes), env);
            && out == [] && t'.nextId == t.nextId && Increasing(t'.rows)
            && forall r :: r in t'.rows <==>
                 r in t.rows &&
                 match ParseDelReq(bytes)
                 case None => true
                 case Some(req) =>
                   env.raises || r.toPk != pk || req.lastMsgId < r.id || req.lastMsgId >= 0x8000_0000_0000_0000
  {
    hide ParseDelReq, Delete, Increasing;
    match ParseDelReq(bytes)
    case None =>
    case Some(req) => DeleteExact(t, pk, req.lastMsgId);
  }

  /** Anything else, also a response sent to the bot, has no effect. */
  lemma OtherHandled(t: Table, p: Packet, env: Env)
    requires p.cmd != SendRequest && p.cmd != PullRequest && p.cmd != DelRequest
    ensures Handle(t, p, env) == (t, [])
  {
  }

  /** A friend who connects is sent the greatest id of the mailbox, if there is one and the
      query does not raise. */
  lemma ConnectHandled(t: Table, pk: Key, env: Env)
    requires ValidTable(t)
    ensures var mailbox := Mailbox(t.rows, pk);
            NoticeReply(t, pk, env) ==
            if env.raises || mailbox == [] then []
            else [Packet(pk, ReadNoticeCmd, NumberBytes(8, mailbox[|mailbox| - 1].id))]
  {
    hide NumberBytes, EncodeReadNotice;
    LatestIdIsMax(t, pk);
    MailboxMembers(t.rows, pk);
    var mailbox := Mailbox(t.rows, pk);
    assert mailbox != [] ==> mailbox[0] in t.rows;
    EncodeNumberBytes(0, LatestId(t.rows, pk));
  }
}
