/** What each handler of the bot does to the table and what it sends, as functions. */
module Handlers {
  import opened Wire
  import opened Proto
  import opened ProtoRequests
  import opened Table
  import opened Batch

  datatype Cmd =
    | SendRequest | PullRequest | DelRequest
    | SendResponse | PullResponse | ReadNoticeCmd
    | OtherCmd

  /** A packet to or from the friend with key `pk`. */
  datatype Packet = Packet(pk: Key, cmd: Cmd, bytes: Bytes)

  /** What the handler cannot control: the clock; whether its statement raises
      SQLException; ids lost to failed inserts; after how many rows a listing raises;
      whether counting raises. */
  datatype Env = Env(now: uint64, raises: bool, skip: nat, listRaisesAfter: Option<nat>, countRaises: bool)

  /** message_offline_recv: the table afterwards. */
  function Recv(t: Table, fr: Key, bytes: Bytes, env: Env): Table {
    match ParseReq(bytes)
    case None => t
    case Some(req) =>
      if env.raises then t
      else Insert(t, fr, req.toPk, req.cryptoMessage, ToU64(req.localMsgId), env.now, env.skip)
  }

  /** The reply is sent whether or not the row was stored. */
  function RecvReply(fr: Key, bytes: Bytes): seq<Packet> {
    match ParseReq(bytes)
    case None => []
    case Some(req) => [Packet(fr, SendResponse, EncodeReq(Req(req.localMsgId, [], [])))]
  }

  /** The rows get_list delivers before its limit, its end or an exception. */
  function Listed(t: Table, pk: Key, env: Env): seq<Row> {
    var mailbox := Mailbox(t.rows, pk);
    var n := if |mailbox| < LIST_LIMIT then |mailbox| else LIST_LIMIT;
    match env.listRaisesAfter
    case None => mailbox[..n]
    case Some(k) => mailbox[..if k < n then k else n]
  }

  function Counted(t: Table, pk: Key, env: Env): uint32 {
    if env.countRaises then 0 else |Mailbox(t.rows, pk)| % TWO_32
  }

  /** message_offline_pull: the response; the subtraction is in uint32. */
  function PullResult(t: Table, pk: Key, env: Env): PullRes {
    var batch := BatchOf(Listed(t, pk, env));
    PullRes(Messages(batch), (Counted(t, pk, env) - |batch|) % TWO_32)
  }

  function PullReply(t: Table, pk: Key, env: Env): seq<Packet> {
    [Packet(pk, PullResponse, EncodePullRes(PullResult(t, pk, env)))]
  }

  /** message_offline_del. */
  function Del(t: Table, pk: Key, bytes: Bytes, env: Env): Table {
    match ParseDelReq(bytes)
    case None => t
    case Some(req) => if env.raises then t else Delete(t, pk, req.lastMsgId)
  }

  /** message_offline_read_notice. */
  function NoticeReply(t: Table, pk: Key, env: Env): seq<Packet> {
    var id := if env.raises then 0 else LatestId(t.rows, pk);
    if id != 0 then [Packet(pk, ReadNoticeCmd, EncodeReadNotice(ReadNotice(id)))] else []
  }

  /** friend_message_offline_cb: the table and the packets sent back. */
  function Handle(t: Table, p: Packet, env: Env): (Table, seq<Packet>) {
    match p.cmd
    case SendRequest => (Recv(t, p.pk, p.bytes, env), RecvReply(p.pk, p.bytes))
    case PullRequest => (t, PullReply(t, p.pk, env))
    case DelRequest => (Del(t, p.pk, p.bytes, env), [])
    case _ => (t, [])
  }

  lemma HandleValid(t: Table, p: Packet, env: Env)
    requires ValidTable(t)
    ensures ValidTable(Handle(t, p, env).0)
    ensures t.nextId <= Handle(t, p, env).0.nextId
  {
    hide ValidTable;
    match p.cmd
    case SendRequest =>
      match ParseReq(p.bytes) {
        case None =>
        case Some(req) =>
          InsertValid(t, p.pk, req.toPk, req.cryptoMessage, ToU64(req.localMsgId), env.now, env.skip);
      }
    case DelRequest =>
      match ParseDelReq(p.bytes) {
        case None =>
        case Some(req) => DeleteValid(t, p.pk, req.lastMsgId);
      }
    case _ =>
  }

  /** A full key's mailbox holds full keys only. */
  lemma MailboxFullKeys(t: Table, pk: Key)
    requires ValidTable(t)
    ensures FullKeys(Mailbox(t.rows, pk))
  {
    MailboxMembers(t.rows, pk);
    var m := Mailbox(t.rows, pk);
    forall i | 0 <= i < |m|
      ensures m[i].Valid() && |m[i].toPk| == KEY_SIZE
    {
      assert m[i] in t.rows;
    }
  }

  // ------------------------------------------------------------------- pulls

  /** The rows a pull sends: always a prefix of the mailbox, and the whole batch unless
      the listing raised before it was complete. */
  function Sent(t: Table, pk: Key, env: Env): seq<Row> {
    BatchOf(Listed(t, pk, env))
  }

  lemma SentIsPrefix(t: Table, pk: Key, env: Env)
    requires ValidTable(t)
    ensures Sent(t, pk, env) <= BatchOf(Mailbox(t.rows, pk)) <= Mailbox(t.rows, pk)
    ensures env.listRaisesAfter.None? ==> Sent(t, pk, env) == BatchOf(Mailbox(t.rows, pk))
    ensures env.listRaisesAfter.Some? ==>
              var b, k := BatchOf(Mailbox(t.rows, pk)), env.listRaisesAfter.value;
              Sent(t, pk, env) == if k < |b| then b[..k] else b
  {
    hide BatchOf;
    var mailbox := Mailbox(t.rows, pk);
    MailboxFullKeys(t, pk);
    BatchIsLongestPrefix(mailbox);
    BatchOfPrefix(mailbox, |Listed(t, pk, env)|);
  }

  /** Any response a valid table can cause is small, so its bytes decode to it. */
  lemma PullResponseDecodes(t: Table, pk: Key, env: Env)
    requires ValidTable(t)
    ensures |EncodePullRes(PullResult(t, pk, env))| <= 1050
    ensures ParsePullRes(EncodePullRes(PullResult(t, pk, env))) == Some(PullResult(t, pk, env))
  {
    hide BatchOf, EncodePullRes, ParsePullRes, PullRes.ByteSize;
    var mailbox := Mailbox(t.rows, pk);
    MailboxFullKeys(t, pk);
    var listed := Listed(t, pk, env);
    assert FullKeys(listed);
    BatchIsLongestPrefix(listed);
    var res := PullResult(t, pk, env);
    ResponseSize(BatchOf(listed), res.leftCount);
    PullResRoundTrip(res);
  }

  /** The mailbox once the client has deleted up to the last message it was sent. */
  function AfterAck(t: Table, pk: Key, env: Env): seq<Row> {
    var sent := Sent(t, pk, env);
    if sent == [] then Mailbox(t.rows, pk)
    else Mailbox(Spared(t.rows, pk, sent[|sent| - 1].id), pk)
  }

  lemma AfterAckRemains(t: Table, pk: Key, env: Env)
    requires ValidTable(t)
    ensures Sent(t, pk, env) + AfterAck(t, pk, env) == Mailbox(t.rows, pk)
  {
    SentIsPrefix(t, pk, env);
    hide Sent, Mailbox, Spared, BatchOf;
    var mailbox, sent := Mailbox(t.rows, pk), Sent(t, pk, env);
    if sent == [] {
      assert sent + mailbox == mailbox;
    } else {
      DeletePrefix(t.rows, pk, sent);
    }
  }

  /** left_count is the number of rows that remain after the acknowledgement, exactly
      unless counting raised: then zero is reported for the count, and the difference is
      right only for an empty mailbox. */
  lemma LeftCountExact(t: Table, pk: Key, env: Env)
    requires ValidTable(t) && |Mailbox(t.rows, pk)| < TWO_32
    ensures PullResult(t, pk, env).leftCount == |AfterAck(t, pk, env)|
            <==> !env.countRaises || Mailbox(t.rows, pk) == []
    ensures !env.countRaises ==> |Sent(t, pk, env)| <= |Mailbox(t.rows, pk)|
  {
    AfterAckRemains(t, pk, env);
    LeftCountIs(t, pk, env);
    hide AfterAck, Mailbox, Sent, PullResult;
    assert |AfterAck(t, pk, env)| == |Mailbox(t.rows, pk)| - |Sent(t, pk, env)|;
  }

  lemma OneRowIsSent(pk: Key, env: Env)
    requires env.listRaisesAfter.None?
    ensures var t := Table([Row(1, 7, pk, pk, [], 0)], 2);
            ValidTable(t) && Mailbox(t.rows, pk) == t.rows && |Sent(t, pk, env)| == 1
  {
    var t := Table([Row(1, 7, pk, pk, [], 0)], 2);
    assert t.rows[..0] == [];
    assert Mailbox(t.rows, pk) == t.rows;
    hide RowSize, Listed, Mailbox;
    SentIsPrefix(t, pk, env);
    RowSizeBounds(t.rows[0]);
    HeadIsSent(t.rows);
  }

  /** It is wrong for a mailbox with one row when counting raises. */
  lemma LeftCountWraps(pk: Key)
    ensures var t := Table([Row(1, 7, pk, pk, [], 0)], 2);
            && ValidTable(t)
            && PullResult(t, pk, Env(0, false, 0, None, true)).leftCount == TWO_32 - 1
            && AfterAck(t, pk, Env(0, false, 0, None, true)) == []
  {
    var t, env := Table([Row(1, 7, pk, pk, [], 0)], 2), Env(0, false, 0, None, true);
    hide *;
    OneRowIsSent(pk, env);
    AfterAckRemains(t, pk, env);
    LeftCountIs(t, pk, env);
    assert |AfterAck(t, pk, env)| == 0;
  }

  lemma LeftCountIs(t: Table, pk: Key, env: Env)
    requires ValidTable(t) && |Mailbox(t.rows, pk)| < TWO_32
    ensures |Sent(t, pk, env)| <= |Mailbox(t.rows, pk)|
    ensures PullResult(t, pk, env).leftCount ==
            if !env.countRaises then |Mailbox(t.rows, pk)| - |Sent(t, pk, env)|
            else if |Sent(t, pk, env)| == 0 then 0 else TWO_32 - |Sent(t, pk, env)|
  {
    hide *;
    assert |Sent(t, pk, env)| <= |Mailbox(t.rows, pk)| by { SentIsPrefix(t, pk, env); }
    PullResultCount(t, pk, env);
    CountDifference(|Sent(t, pk, env)|, |Mailbox(t.rows, pk)|, env.countRaises, PullResult(t, pk, env).leftCount);
  }

  lemma PullResultCount(t: Table, pk: Key, env: Env)
    ensures PullResult(t, pk, env).leftCount ==
            ((if env.countRaises then 0 else |Mailbox(t.rows, pk)| % TWO_32) - |Sent(t, pk, env)|) % TWO_32
  {
    hide BatchOf, Listed, Mailbox;
  }

  lemma CountDifference(n: nat, all: nat, raised: bool, left: int)
    requires n <= all < TWO_32
    requires left == ((if raised then 0 else all % TWO_32) - n) % TWO_32
    ensures left == if !raised then all - n else if n == 0 then 0 else TWO_32 - n
  {
  }

  // ----------------------------------------------------------- sends and replies

  /** What the columns, the unique local ids and the supply of ids admit. */
  predicate Admitted(t: Table, req: Req, env: Env) {
    && |req.toPk| <= 64 && |req.cryptoMessage| <= 2048
    && 0 <= req.localMsgId && env.now < 0x8000_0000_0000_0000
    && t.nextId + env.skip < 0x8000_0000_0000_0000
    && forall r :: r in t.rows ==> r.localMsgId != req.localMsgId
  }

  lemma AcceptsIsAdmitted(t: Table, req: Req, env: Env)
    ensures Accepts(t, req.toPk, req.cryptoMessage, ToU64(req.localMsgId), env.now, env.skip) <==> Admitted(t, req, env)
  {
    AcceptsExact(t, req.toPk, req.cryptoMessage, ToU64(req.localMsgId), env.now, env.skip);
  }

  /** After a request was handled without an exception, a row with its id is live if
      and only if the columns can hold the request or such a row was live before. */
  lemma LiveAfterRecv(t: Table, fr: Key, bytes: Bytes, env: Env)
    requires ValidTable(t) && ParseReq(bytes).Some? && !env.raises
    ensures var req := ParseReq(bytes).value;
            var id := ToU64(req.localMsgId);
            LocalIdTaken(Recv(t, fr, bytes, env), id) <==>
              || LocalIdTaken(t, id)
              || Admitted(t, req, env)
  {
    hide ValidTable;
    var req := ParseReq(bytes).value;
    AcceptsIsAdmitted(t, req, env);
    hide Admitted;
    var id := ToU64(req.localMsgId);
    var t' := Recv(t, fr, bytes, env);
    if Accepts(t, req.toPk, req.cryptoMessage, id, env.now, env.skip) {
      assert t'.rows[|t.rows|].localMsgId == id;
    }
  }

  /** Repeating a send while a row with its id is live changes no rows, and the reply is
      sent again: it decodes to the id for every int64. */
  lemma RetransmissionIsSafe(t: Table, fr: Key, bytes: Bytes, env: Env)
    requires ParseReq(bytes).Some?
    requires LocalIdTaken(t, ToU64(ParseReq(bytes).value.localMsgId))
    ensures Recv(t, fr, bytes, env).rows == t.rows
    ensures |RecvReply(fr, bytes)| == 1
    ensures ParseRes(RecvReply(fr, bytes)[0].bytes) == Some(Res(ParseReq(bytes).value.localMsgId))
  {
    ReplyIsRes(ParseReq(bytes).value.localMsgId);
  }

  /** The row a request asks for is in the table. */
  ghost predicate Stored(t: Table, fr: Key, req: Req) {
    exists i :: 0 <= i < |t.rows| && t.rows[i].frPk == fr && t.rows[i].toPk == req.toPk
                && t.rows[i].content == req.cryptoMessage && t.rows[i].localMsgId == ToU64(req.localMsgId)
  }

  /** The reply does not mean that the message was stored. It was if and only if it was
      there before, or the insert did not raise and the columns, the unique key and the
      id supply admit it; a live row of another sender with the same local id shuts it out. */
  lemma RepliedIsStoredIff(t: Table, fr: Key, bytes: Bytes, env: Env)
    requires ParseReq(bytes).Some?
    ensures RecvReply(fr, bytes) != []
    ensures var req := ParseReq(bytes).value;
            Stored(Recv(t, fr, bytes, env), fr, req) <==>
              || Stored(t, fr, req)
              || (!env.raises && Admitted(t, req, env))
  {
    var req := ParseReq(bytes).value;
    AcceptsIsAdmitted(t, req, env);
    hide Admitted;
    var t' := Recv(t, fr, bytes, env);
    if !env.raises && Accepts(t, req.toPk, req.cryptoMessage, ToU64(req.localMsgId), env.now, env.skip) {
      assert t'.rows[|t.rows|].frPk == fr;
    } else {
      assert t'.rows == t.rows;
    }
    if Stored(t, fr, req) {
      var i :| 0 <= i < |t.rows| && t.rows[i].frPk == fr && t.rows[i].toPk == req.toPk
               && t.rows[i].content == req.cryptoMessage && t.rows[i].localMsgId == ToU64(req.localMsgId);
      assert t'.rows[i] == t.rows[i];
    }
  }
}
